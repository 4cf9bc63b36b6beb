/** The Assignments tab of app.py: assignment codes (`new_code`), the
    instructor's "Create assignment" action, and the student's list of the
    assignments of their group with its default pick. */
module Assignments {
  import opened Results
  import opened PyStr
  import opened Script
  import opened Records

  /** `os.path.join(LOG_DIR, "assignments.csv")`. */
  const AssignCsv: string := "logs/assignments.csv"

  /** The word a code starts with when no group code is set. */
  const DefaultBase: string := "ASSGN"

  /** The mode names start with this when the student post-edits a machine draft. */
  const PostEditPrefix: string := "Post-edit"

  // ------------------------------------------------------------- new_code()

  type LowerHex = c: char | ('0' <= c <= '9') || ('a' <= c <= 'f') witness '0'

  /** A version-4 UUID as its 32 hexadecimal digits: the random input of a code. */
  type Uuid = u: seq<LowerHex> | |u| == 32 witness seq(32, _ => '0')

  /** `str(uuid)`: the digits in groups of 8, 4, 4, 4 and 12, joined by '-'. */
  function UuidText(u: Uuid): string {
    u[..8] + "-" + u[8..12] + "-" + u[12..16] + "-" + u[16..20] + "-" + u[20..]
  }

  /** Why "Create assignment" writes nothing: the form check failed, or
      `new_code` raised IndexError because the group code had no word. */
  datatype CreateError = MissingTitleOrText | NoGroupWord

  /** `(group_code or "ASSGN").split()[0][:6].upper()`: the word part of a
      code, 1 to 6 characters without whitespace; none where `[0]` raises
      IndexError, which is for a group code that is blank but not empty. */
  function CodeWord(groupCode: string): (word: Option<string>)
    ensures word.None? <==> groupCode != "" && Blank(groupCode)
    ensures word.Some? ==> 1 <= |word.value| <= 6 && NoSpace(word.value)
  {
    var source := if groupCode == "" then DefaultBase else groupCode;
    var words := Words(source);
    WordSource(groupCode);
    if words == [] then None
    else
      FirstWordPrefix(words);
      Some(Upper(Take(words[0], 6)))
  }

  /** The string that is split has a word exactly when the group code is
      empty or not blank. */
  lemma WordSource(groupCode: string)
    ensures Words(if groupCode == "" then DefaultBase else groupCode) == []
        <==> groupCode != "" && Blank(groupCode)
  {
    var source := if groupCode == "" then DefaultBase else groupCode;
    WordsOfBlank(source);
    if groupCode == "" {
      assert !IsSpace(DefaultBase[0]);
    }
  }

  /** The first word cut to six characters and upper-cased is 1 to 6
      characters without whitespace. */
  lemma FirstWordPrefix(words: seq<string>)
    requires words != [] && forall w :: w in words ==> w != [] && NoSpace(w)
    ensures 1 <= |Upper(Take(words[0], 6))| <= 6 && NoSpace(Upper(Take(words[0], 6)))
  {
    assert words[0] in words;
    var t := Take(words[0], 6);
    assert NoSpace(t) by {
      forall i | 0 <= i < |t| ensures !IsSpace(t[i]) {
        assert t[i] == words[0][i];
      }
    }
  }

  /** `str(uuid4())[:4].upper()`: four upper-case hex digits that give back
      the first four digits of the UUID. */
  function CodeSuffix(u: Uuid): (suffix: string)
    ensures |suffix| == 4 && forall i :: 0 <= i < 4 ==> IsUpperHex(suffix[i])
    ensures Lower(suffix) == u[..4]
  {
    var head := UuidText(u)[..4];
    assert head == u[..4];
    var suffix := Upper(head);
    assert forall i :: 0 <= i < 4 ==> LowerChar(suffix[i]) == head[i];
    suffix
  }

  /** `new_code()`: the word part, a '-', and the UUID part. */
  function NewCode(groupCode: string, u: Uuid): (r: Result<string, CreateError>)
    ensures r.Failure? <==> groupCode != "" && Blank(groupCode)
    ensures r.Failure? ==> r.error == NoGroupWord
  {
    match CodeWord(groupCode)
    case None => Failure(NoGroupWord)
    case Some(word) => Success(word + "-" + CodeSuffix(u))
  }

  predicate IsUpperHex(c: char) {
    ('0' <= c <= '9') || ('A' <= c <= 'F')
  }

  /** A code is made for every group code but a blank, non-empty one; it is
      6 to 11 characters long, its word part has no whitespace, the '-' stands
      fifth from the end, and the last four characters are upper-case hex
      digits that give back the first four digits of the UUID. */
  lemma NewCodeShape(groupCode: string, u: Uuid)
    ensures NewCode(groupCode, u).Failure? <==> groupCode != "" && Blank(groupCode)
    ensures NewCode(groupCode, u).Success? ==>
      var code := NewCode(groupCode, u).value;
      6 <= |code| <= 11 && code[|code| - 5] == '-' && NoSpace(code[..|code| - 5])
      && (forall i :: |code| - 4 <= i < |code| ==> IsUpperHex(code[i]))
      && Lower(code[|code| - 4..]) == u[..4]
  {
    match CodeWord(groupCode)
    case None =>
    case Some(word) =>
      var suffix := CodeSuffix(u);
      var code := word + "-" + suffix;
      assert code[..|code| - 5] == word;
      assert code[|code| - 4..] == suffix;
  }

  /** The whole code: the group code's first word cut to six characters and
      upper-cased, a '-', and the UUID's first four digits upper-cased. */
  lemma NewCodeValue(p: string, w: string, q: string, u: Uuid)
    requires Blank(p) && w != [] && NoSpace(w) && (q == [] || IsSpace(q[0]))
    ensures NewCode(p + w + q, u) == Success(Upper(Take(w, 6)) + "-" + CodeSuffix(u))
  {
    CodeWordOfFirstToken(p, w, q);
  }

  /** A single word without lower-case letters, six characters or fewer, is
      the word part of the codes made from it, as typed. */
  lemma CodeWordOfWord(groupCode: string)
    requires 1 <= |groupCode| <= 6 && NoSpace(groupCode)
    requires forall i :: 0 <= i < |groupCode| ==> !IsAsciiLower(groupCode[i])
    ensures CodeWord(groupCode) == Some(groupCode)
  {
    assert Take(groupCode, 6) == groupCode;
    UpperUntouched(groupCode);
    WordsOfWord(groupCode);
    CodeWordOfFirstWord(groupCode);
  }

  lemma CodeWordOfFirstWord(groupCode: string)
    requires groupCode != "" && Words(groupCode) != []
    ensures CodeWord(groupCode) == Some(Upper(Take(Words(groupCode)[0], 6)))
  {
  }

  /** The word part is the first whitespace-separated word of the group code,
      cut to six characters and upper-cased, whatever follows it. */
  lemma CodeWordOfFirstToken(p: string, w: string, q: string)
    requires Blank(p) && w != [] && NoSpace(w) && (q == [] || IsSpace(q[0]))
    ensures CodeWord(p + w + q) == Some(Upper(Take(w, 6)))
  {
    var g := p + w + q;
    assert |g| >= |w| > 0;
    WordsLead(p, w, q);
    assert Words(g)[0] == w;
    CodeWordOfFirstWord(g);
  }

  /** A group code "eng201 sec" gives the word part "ENG201". */
  lemma CodeWordOfTwoWords()
    ensures CodeWord("eng201 sec") == Some("ENG201")
  {
    var w := "eng201";
    assert NoSpace(w) by {
      assert forall i :: 0 <= i < |w| ==> !IsSpace(w[i]);
    }
    assert IsSpace(" sec"[0]);
    CodeWordOfFirstToken("", w, " sec");
    assert "" + w + " sec" == "eng201 sec";
    UpperOfEng201();
  }

  lemma UpperOfEng201()
    ensures Upper(Take("eng201", 6)) == "ENG201"
  {
    assert Take("eng201", 6) == "eng201";
  }

  /** A group "ENG201" gives codes "ENG201-XXXX". */
  lemma NewCodeOfGroup(u: Uuid)
    ensures NewCode("ENG201", u).Success? && StartsWith(NewCode("ENG201", u).value, "ENG201-")
  {
    var g := "ENG201";
    assert forall i :: 0 <= i < |g| ==> !IsSpace(g[i]) && !IsAsciiLower(g[i]);
    CodeWordOfWord(g);
    var code := g + "-" + CodeSuffix(u);
    assert code[..7] == g + "-";
  }

  /** No group code gives codes "ASSGN-XXXX". */
  lemma NewCodeWithoutGroup(u: Uuid)
    ensures NewCode("", u).Success? && StartsWith(NewCode("", u).value, "ASSGN-")
  {
    var g := DefaultBase;
    var code := g + "-" + CodeSuffix(u);
    assert code[..6] == g + "-";
    assert forall i :: 0 <= i < |g| ==> !IsSpace(g[i]) && !IsAsciiLower(g[i]);
    CodeWordOfWord(g);
    CodeWordOfEmpty();
  }

  /** An empty group code is read as "ASSGN". */
  lemma CodeWordOfEmpty()
    ensures CodeWord("") == CodeWord(DefaultBase)
  {
  }

  /** A group code of spaces makes `new_code` raise. */
  lemma NewCodeOfBlankGroup(u: Uuid)
    ensures NewCode("   ", u) == Failure(NoGroupWord)
  {
    assert Blank("   ");
  }

  // ------------------------------------------------------ Create assignment

  /** The instructor's form. */
  datatype AssignmentForm = AssignmentForm(
    title: string, text: string, mode: string, deadline: string, showMt: bool)

  /** The sidebar settings in effect when the form is sent. */
  datatype Sidebar = Sidebar(
    studentName: string, groupCode: string, src: Lang, tgt: Lang, domain: string, tone: string)

  /** The machine draft is asked for only in a post-edit mode with the box ticked. */
  predicate WantsMachineDraft(form: AssignmentForm) {
    StartsWith(form.mode, PostEditPrefix) && form.showMt
  }

  /** The assignment row written to assignments.csv. */
  function AssignmentRecord(form: AssignmentForm, bar: Sidebar, timestamp: string, code: string, mtDraft: string): Row {
    map[
      "timestamp" := timestamp, "code" := code, "title" := form.title, "mode" := form.mode,
      "source_lang" := LangName(bar.src), "target_lang" := LangName(bar.tgt),
      "domain" := bar.domain, "tone" := bar.tone, "deadline" := form.deadline,
      "text" := form.text, "mt_draft" := mtDraft,
      "instructor" := bar.studentName, "group" := bar.groupCode]
  }

  /** All thirteen columns of an assignment row read back as they were written. */
  lemma RecordFields(form: AssignmentForm, bar: Sidebar, timestamp: string, code: string, mtDraft: string)
    ensures var row := AssignmentRecord(form, bar, timestamp, code, mtDraft);
      GroupOf(row) == bar.groupCode && StampOf(row) == timestamp
      && Field(row, "code") == code && Field(row, "title") == form.title
      && Field(row, "text") == form.text && Field(row, "mode") == form.mode
      && Field(row, "deadline") == form.deadline && Field(row, "mt_draft") == mtDraft
      && Field(row, "source_lang") == LangName(bar.src) && Field(row, "target_lang") == LangName(bar.tgt)
      && Field(row, "domain") == bar.domain && Field(row, "tone") == bar.tone
      && Field(row, "instructor") == bar.studentName
  {
  }

  /** What "Create assignment" writes, given the clock reading, the UUID and
      the external service's translation (used only when a machine draft is
      wanted). */
  function CreatedRow(form: AssignmentForm, bar: Sidebar, timestamp: string, u: Uuid, machineDraft: string): Result<Row, CreateError> {
    if form.title == "" || form.text == "" then Failure(MissingTitleOrText)
    else
      match NewCode(bar.groupCode, u)
      case Failure(e) => Failure(e)
      case Success(code) =>
        Success(AssignmentRecord(form, bar, timestamp, code,
                                 if WantsMachineDraft(form) then machineDraft else ""))
  }

  /** Creation is refused when the title or the text is empty, and fails when
      the group code is blank but not empty; otherwise the row stores the
      group code as typed, the title, the text, a fresh code, and the machine
      draft exactly when one was wanted. */
  lemma CreateOutcome(form: AssignmentForm, bar: Sidebar, timestamp: string, u: Uuid, machineDraft: string)
    ensures form.title == "" || form.text == "" ==>
      CreatedRow(form, bar, timestamp, u, machineDraft) == Failure(MissingTitleOrText)
    ensures CreatedRow(form, bar, timestamp, u, machineDraft).Failure?
      <==> form.title == "" || form.text == "" || (bar.groupCode != "" && Blank(bar.groupCode))
    ensures CreatedRow(form, bar, timestamp, u, machineDraft).Success? ==>
      var row := CreatedRow(form, bar, timestamp, u, machineDraft).value;
      GroupOf(row) == bar.groupCode && StampOf(row) == timestamp
      && Field(row, "title") == form.title && Field(row, "text") == form.text
      && Field(row, "mode") == form.mode
      && NewCode(bar.groupCode, u) == Success(Field(row, "code"))
      && Field(row, "mt_draft") == (if WantsMachineDraft(form) then machineDraft else "")
  {
    if form.title != "" && form.text != "" {
      NewCodeShape(bar.groupCode, u);
      var code := NewCode(bar.groupCode, u);
      if code.Success? {
        RecordFields(form, bar, timestamp, code.value,
                     if WantsMachineDraft(form) then machineDraft else "");
      }
    }
  }

  /** The "Create assignment" button: check the form, make the code, take the
      machine draft if one is wanted, and append the row to assignments.csv.
      Returns the code shown to the instructor. */
  method CreateAssignment(store: RecordStore, form: AssignmentForm, bar: Sidebar,
                          timestamp: string, u: Uuid, machineDraft: string)
    returns (outcome: Result<string, CreateError>)
    modifies store
    ensures match CreatedRow(form, bar, timestamp, u, machineDraft)
      case Failure(e) => outcome == Failure(e) && store.files == old(store.files)
      case Success(row) =>
        outcome == Success(Field(row, "code"))
        && store.files == Appended(old(store.files), AssignCsv, row)
  {
    if form.title == "" || form.text == "" {
      return Failure(MissingTitleOrText);
    }
    var code := NewCode(bar.groupCode, u);
    if code.Failure? {
      return Failure(code.error);
    }
    var mtDraft := "";
    if WantsMachineDraft(form) {
      mtDraft := machineDraft;
    }
    var row := AssignmentRecord(form, bar, timestamp, code.value, mtDraft);
    assert CreatedRow(form, bar, timestamp, u, machineDraft) == Success(row);
    RecordFields(form, bar, timestamp, code.value, mtDraft);
    store.Append(AssignCsv, row);
    outcome := Success(code.value);
  }

  // ------------------------------------------------------ the group's list

  /** The stored group of a row, "" when absent. */
  function GroupOf(row: Row): string {
    Field(row, "group")
  }

  /** The stored creation time of a row, "" when absent. */
  function StampOf(row: Row): string {
    Field(row, "timestamp")
  }

  /** `df_all[df_all["group"].fillna("") == g]`: every row of group `g`, as
      often as it is stored, and no other. */
  function InGroup(rows: seq<Row>, g: string): (r: seq<Row>)
    ensures forall x :: multiset(r)[x] == if GroupOf(x) == g then multiset(rows)[x] else 0
  {
    if rows == [] then []
    else
      assert rows == [rows[0]] + rows[1..];
      (if GroupOf(rows[0]) == g then [rows[0]] else []) + InGroup(rows[1..], g)
  }

  /** String order: code point by code point, a prefix before its extensions.
      For timestamps written as "%Y-%m-%d %H:%M:%S" this is the order in time. */
  predicate StrLe(a: string, b: string) {
    a == [] || (b != [] && (a[0] < b[0] || (a[0] == b[0] && StrLe(a[1..], b[1..]))))
  }

  lemma {:induction false} StrLeTotal(a: string, b: string)
    ensures StrLe(a, b) || StrLe(b, a)
  {
    if a != [] && b != [] && a[0] == b[0] {
      StrLeTotal(a[1..], b[1..]);
    }
  }

  lemma {:induction false} StrLeTransitive(a: string, b: string, c: string)
    requires StrLe(a, b) && StrLe(b, c)
    ensures StrLe(a, c)
  {
    if a != [] && a[0] == b[0] && b[0] == c[0] {
      StrLeTransitive(a[1..], b[1..], c[1..]);
    }
  }

  lemma {:induction false} StrLeAntisymmetric(a: string, b: string)
    requires StrLe(a, b) && StrLe(b, a)
    ensures a == b
  {
    if a != [] {
      StrLeAntisymmetric(a[1..], b[1..]);
      assert a == [a[0]] + a[1..] && b == [b[0]] + b[1..];
    }
  }

  predicate SortedByStamp(s: seq<Row>) {
    forall i, j :: 0 <= i < j < |s| ==> StrLe(StampOf(s[i]), StampOf(s[j]))
  }

  /** A row no later than every row of a sorted list can go in front of it. */
  lemma PrependSorted(y: Row, s: seq<Row>)
    requires SortedByStamp(s)
    requires forall z :: z in s ==> StrLe(StampOf(y), StampOf(z))
    ensures SortedByStamp([y] + s)
  {
    var r := [y] + s;
    forall i, j | 0 <= i < j < |r| ensures StrLe(StampOf(r[i]), StampOf(r[j])) {
      if i == 0 {
        assert r[j] == s[j - 1];
        assert r[j] in s;
      } else {
        assert r[i] == s[i - 1] && r[j] == s[j - 1];
      }
    }
  }

  /** A row no later than the head of a sorted list is no later than any of it. */
  lemma BelowHead(y: Row, s: seq<Row>)
    requires SortedByStamp(s) && (s != [] ==> StrLe(StampOf(y), StampOf(s[0])))
    ensures forall z :: z in s ==> StrLe(StampOf(y), StampOf(z))
  {
    forall z | z in s ensures StrLe(StampOf(y), StampOf(z)) {
      var j :| 0 <= j < |s| && s[j] == z;
      if j > 0 {
        StrLeTransitive(StampOf(y), StampOf(s[0]), StampOf(z));
      }
    }
  }

  /** The head of a sorted list is no later than the rest of it with a later
      row added. */
  lemma HeadBelowRest(x: Row, s: seq<Row>, rest: seq<Row>)
    requires SortedByStamp(s) && s != [] && StrLe(StampOf(s[0]), StampOf(x))
    requires multiset(rest) == multiset(s[1..]) + multiset{x}
    ensures forall z :: z in rest ==> StrLe(StampOf(s[0]), StampOf(z))
  {
    forall z | z in rest ensures StrLe(StampOf(s[0]), StampOf(z)) {
      assert z in multiset(rest);
      if z != x {
        assert z in multiset(s[1..]);
        var j :| 0 <= j < |s[1..]| && s[1..][j] == z;
        assert s[j + 1] == z;
      }
    }
  }

  /** One step of the sort: `x` placed into a sorted list. */
  function InsertByStamp(x: Row, s: seq<Row>): (r: seq<Row>)
    requires SortedByStamp(s)
    ensures multiset(r) == multiset(s) + multiset{x}
    ensures SortedByStamp(r)
  {
    if s == [] || StrLe(StampOf(x), StampOf(s[0])) then
      BelowHead(x, s);
      PrependSorted(x, s);
      [x] + s
    else
      var head := s[0];
      StrLeTotal(StampOf(x), StampOf(head));
      assert s == [head] + s[1..];
      var rest := InsertByStamp(x, s[1..]);
      HeadBelowRest(x, s, rest);
      PrependSorted(head, rest);
      [head] + rest
  }

  /** `sort_values('timestamp')`: the same rows, in timestamp order. Rows with
      equal timestamps may come in any order: nothing here depends on it. */
  function SortByStamp(s: seq<Row>): (r: seq<Row>)
    ensures SortedByStamp(r) && multiset(r) == multiset(s)
  {
    if s == [] then []
    else
      assert s == [s[0]] + s[1..];
      InsertByStamp(s[0], SortByStamp(s[1..]))
  }

  /** "Assignments for my group": nothing for a blank group code; otherwise
      the rows whose stored group equals the stripped group code, each as often
      as it is stored, oldest first. */
  function Directory(rows: seq<Row>, groupCode: string): (r: seq<Row>)
    ensures Blank(groupCode) ==> r == []
    ensures !Blank(groupCode) ==> SortedByStamp(r)
    ensures forall x :: (multiset(r)[x]
      == if !Blank(groupCode) && GroupOf(x) == Strip(groupCode) then multiset(rows)[x] else 0)
  {
    var g := Strip(groupCode);
    if g == [] then [] else SortByStamp(InGroup(rows, g))
  }

  /** A row is listed exactly when the group code is not blank, the row is
      stored, and its group is the stripped group code: rows of other groups
      never appear. */
  lemma ListedIff(rows: seq<Row>, groupCode: string, x: Row)
    ensures x in Directory(rows, groupCode)
        <==> !Blank(groupCode) && x in rows && GroupOf(x) == Strip(groupCode)
  {
    assert x in Directory(rows, groupCode) <==> x in multiset(Directory(rows, groupCode));
    assert x in rows <==> x in multiset(rows);
  }

  /** An assignments file that does not exist yet lists nothing. */
  lemma NoFileNoAssignments(fs: Files, groupCode: string)
    requires AssignCsv !in fs
    ensures Directory(Read(fs, AssignCsv), groupCode) == []
  {
  }

  /** What the select box shows for a row. */
  function Label(row: Row): string {
    Field(row, "code") + " \U{2014} " + Field(row, "title") + " (due: " + Field(row, "deadline") + ")"
  }

  /** The options of the select box: option i is the label of row i. */
  function Labels(rows: seq<Row>): (r: seq<string>)
    ensures |r| == |rows|
    ensures forall i :: 0 <= i < |rows| ==> r[i] == Label(rows[i])
  {
    seq(|rows|, i requires 0 <= i < |rows| => Label(rows[i]))
  }

  /** `xs.index(x)`: the first position holding `x`. */
  function IndexOf(xs: seq<string>, x: string): (i: nat)
    requires x in xs
    ensures i < |xs| && xs[i] == x
    ensures forall j :: 0 <= j < i ==> xs[j] != x
  {
    if xs[0] == x then 0 else 1 + IndexOf(xs[1..], x)
  }

  /** `assignments_for_group.iloc[options.index(pick)]`: the row of a chosen
      label is the first listed row with that label. */
  function SelectedRow(listed: seq<Row>, pick: string): (row: Row)
    requires pick in Labels(listed)
    ensures Label(row) == pick
    ensures exists k :: (0 <= k < |listed| && listed[k] == row
      && forall j :: 0 <= j < k ==> Label(listed[j]) != pick)
  {
    var i := IndexOf(Labels(listed), pick);
    listed[i]
  }

  /** The row shown before the student touches the select box: the label at
      `len(options) - 1` mapped back through `options.index`; none when the
      list is empty. */
  function DefaultSelection(listed: seq<Row>): (sel: Option<Row>)
    ensures sel.None? <==> listed == []
    ensures sel.Some? ==> (Label(sel.value) == Label(listed[|listed| - 1])
      && exists k :: (0 <= k < |listed| && listed[k] == sel.value
        && forall j :: 0 <= j < k ==> Label(listed[j]) != Label(listed[|listed| - 1])))
  {
    if listed == [] then None
    else
      var options := Labels(listed);
      Some(SelectedRow(listed, options[|options| - 1]))
  }

  /** Two listed rows with the same label: the default is the first of them,
      because `options.index` finds the first matching option. */
  lemma SharedLabelPicksFirst(a: Row, b: Row)
    requires Label(a) == Label(b)
    ensures DefaultSelection([a, b]) == Some(a)
  {
    assert Labels([a, b])[0] == Label(b);
  }

  /** In a list sorted by timestamp, a row strictly newer than every other
      row, whose label no other row shares, is the default pick. */
  lemma NewestOfSortedIsDefault(v: seq<Row>, x: Row)
    requires SortedByStamp(v) && x in v
    requires forall y :: y in v && y != x ==> StrLe(StampOf(y), StampOf(x)) && StampOf(y) != StampOf(x)
    requires forall y :: y in v && Label(y) == Label(x) ==> y == x
    ensures DefaultSelection(v) == Some(x)
  {
    var last := v[|v| - 1];
    if last != x {
      var k :| 0 <= k < |v| && v[k] == x;
      assert StrLe(StampOf(x), StampOf(last));
      StrLeAntisymmetric(StampOf(x), StampOf(last));
      assert false;
    }
  }

  /** A listed assignment that is strictly newer than every other listed row
      and whose label no other listed row shares is the default pick. */
  lemma NewestIsDefault(rows: seq<Row>, groupCode: string, x: Row)
    requires x in Directory(rows, groupCode)
    requires forall y :: y in Directory(rows, groupCode) && y != x ==>
      StrLe(StampOf(y), StampOf(x)) && StampOf(y) != StampOf(x)
    requires forall y :: y in Directory(rows, groupCode) && Label(y) == Label(x) ==> y == x
    ensures DefaultSelection(Directory(rows, groupCode)) == Some(x)
  {
    NewestOfSortedIsDefault(Directory(rows, groupCode), x);
  }

  /** A store of rows a and b, in either order, lists b by default when b is
      the later of the two and their labels differ. */
  lemma LaterIsDefault(a: Row, b: Row, groupCode: string, aFirst: bool)
    requires !Blank(groupCode) && GroupOf(b) == Strip(groupCode)
    requires StrLe(StampOf(a), StampOf(b)) && StampOf(a) != StampOf(b)
    requires Label(a) != Label(b)
    ensures DefaultSelection(Directory(if aFirst then [a, b] else [b, a], groupCode)) == Some(b)
  {
    var rows := if aFirst then [a, b] else [b, a];
    PairMembers(a, b, aFirst);
    ListedAmong(rows, groupCode, a, b);
    ListedIff(rows, groupCode, b);
    NewestOfSortedIsDefault(Directory(rows, groupCode), b);
  }

  lemma PairMembers(a: Row, b: Row, aFirst: bool)
    ensures var rows := if aFirst then [a, b] else [b, a];
      (forall y :: y in rows ==> y == a || y == b) && b in rows
  {
  }

  /** Only stored rows are listed. */
  lemma ListedAmong(rows: seq<Row>, groupCode: string, a: Row, b: Row)
    requires forall y :: y in rows ==> y == a || y == b
    ensures forall y :: y in Directory(rows, groupCode) ==> y == a || y == b
  {
    forall y | y in Directory(rows, groupCode) ensures y == a || y == b {
      ListedIff(rows, groupCode, y);
    }
  }

  /** Two assignments of one group created at T1 < T2 with different labels:
      the one created at T2 is the default, in whichever order they were stored. */
  lemma LaterOfTwoIsDefault(a: Row, b: Row, groupCode: string)
    requires !Blank(groupCode) && GroupOf(a) == Strip(groupCode) && GroupOf(b) == Strip(groupCode)
    requires StrLe(StampOf(a), StampOf(b)) && StampOf(a) != StampOf(b)
    requires Label(a) != Label(b)
    ensures DefaultSelection(Directory([a, b], groupCode)) == Some(b)
    ensures DefaultSelection(Directory([b, a], groupCode)) == Some(b)
  {
    LaterIsDefault(a, b, groupCode, true);
    LaterIsDefault(a, b, groupCode, false);
  }

  /** A store holding one assignment lists it for its own group and for no
      other group code. */
  lemma OneAssignmentListing(row: Row, groupCode: string)
    ensures Directory([row], groupCode)
        == if !Blank(groupCode) && GroupOf(row) == Strip(groupCode) then [row] else []
  {
    var r := Directory([row], groupCode);
    if !Blank(groupCode) && GroupOf(row) == Strip(groupCode) {
      assert multiset(r) == multiset{row};
      assert |r| == 1;
      assert r[0] in multiset(r);
    } else {
      assert multiset(r) == multiset{};
    }
  }

  /** A row of group "ENG201-1" is listed for "ENG201-1" and not for "ENG201-2". */
  lemma SectionListing(row: Row)
    requires GroupOf(row) == "ENG201-1"
    ensures Directory([row], "ENG201-1") == [row] && Directory([row], "ENG201-2") == []
  {
    assert !Blank("ENG201-1") by { assert !IsSpace("ENG201-1"[0]); }
    assert !Blank("ENG201-2") by { assert !IsSpace("ENG201-2"[0]); }
    StripUntouched("ENG201-1");
    StripUntouched("ENG201-2");
    OneAssignmentListing(row, "ENG201-1");
    OneAssignmentListing(row, "ENG201-2");
  }

  /** An assignment created for "ENG201-1" is the one option of a student of
      "ENG201-1" and is not shown to a student of "ENG201-2". */
  lemma OwnGroupSeesAssignment(form: AssignmentForm, bar: Sidebar, timestamp: string, u: Uuid, machineDraft: string)
    requires form.title != "" && form.text != "" && bar.groupCode == "ENG201-1"
    ensures CreatedRow(form, bar, timestamp, u, machineDraft).Success?
    ensures var row := CreatedRow(form, bar, timestamp, u, machineDraft).value;
      Directory([row], "ENG201-1") == [row] && Directory([row], "ENG201-2") == []
  {
    assert !Blank(bar.groupCode) by { assert !IsSpace(bar.groupCode[0]); }
    CreateOutcome(form, bar, timestamp, u, machineDraft);
    SectionListing(CreatedRow(form, bar, timestamp, u, machineDraft).value);
  }

  /** The student's group code is stripped but the instructor's is stored as
      typed: an assignment created under a group code with whitespace at an
      end is listed for no group code at all. */
  lemma PaddedGroupNeverListed(form: AssignmentForm, bar: Sidebar, timestamp: string, u: Uuid,
                               machineDraft: string, rows: seq<Row>, groupCode: string)
    requires CreatedRow(form, bar, timestamp, u, machineDraft).Success?
    requires Strip(bar.groupCode) != bar.groupCode
    ensures CreatedRow(form, bar, timestamp, u, machineDraft).value !in Directory(rows, groupCode)
  {
    var row := CreatedRow(form, bar, timestamp, u, machineDraft).value;
    CreateOutcome(form, bar, timestamp, u, machineDraft);
    ListedIff(rows, groupCode, row);
    StripIdempotent(groupCode);
  }

  /** "Create assignment" with the group code stripped before use, as the
      student's side already strips it. */
  function CreatedRowStripped(form: AssignmentForm, bar: Sidebar, timestamp: string, u: Uuid, machineDraft: string): Result<Row, CreateError> {
    CreatedRow(form, bar.(groupCode := Strip(bar.groupCode)), timestamp, u, machineDraft)
  }

  /** With the group code stripped, creation fails only for a missing title or
      text, and the new assignment is listed for every student whose group
      code strips to the same non-blank group. */
  lemma StrippedCreateIsListed(form: AssignmentForm, bar: Sidebar, timestamp: string, u: Uuid,
                               machineDraft: string, rows: seq<Row>, groupCode: string)
    ensures CreatedRowStripped(form, bar, timestamp, u, machineDraft).Failure?
        <==> form.title == "" || form.text == ""
    ensures (CreatedRowStripped(form, bar, timestamp, u, machineDraft).Success?
             && !Blank(groupCode) && Strip(groupCode) == Strip(bar.groupCode)) ==>
      CreatedRowStripped(form, bar, timestamp, u, machineDraft).value
        in Directory(rows + [CreatedRowStripped(form, bar, timestamp, u, machineDraft).value], groupCode)
  {
    var bar' := bar.(groupCode := Strip(bar.groupCode));
    CreateOutcome(form, bar', timestamp, u, machineDraft);
    var created := CreatedRowStripped(form, bar, timestamp, u, machineDraft);
    if created.Success? {
      ListedIff(rows + [created.value], groupCode, created.value);
    }
  }
}
