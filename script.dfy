/** Script detection in app.py: `is_arabic_text` and the Translate tab's choice
    of source and target language. */
module Script {
  import opened PyStr

  /** The two languages the sidebar offers. */
  datatype Lang = Arabic | English

  /** The name the application shows and stores for a language. */
  function LangName(l: Lang): string {
    match l
    case Arabic => "Arabic"
    case English => "English"
  }

  /** A code point of the Arabic block, U+0600..U+06FF (the class `[؀-ۿ]`). */
  predicate IsArabicChar(c: char) {
    '\U{0600}' <= c <= '\U{06FF}'
  }

  /** `is_arabic_text(text)`: the regular-expression search finds a match
      exactly when some character of the text is in the Arabic block. A missing
      text is searched as "", so it is the empty string here. */
  function IsArabicText(text: string): (found: bool)
    ensures found <==> exists i :: 0 <= i < |text| && IsArabicChar(text[i])
  {
    if text == [] then false
    else IsArabicChar(text[0]) || IsArabicText(text[1..])
  }

  /** No Arabic character is whitespace, so Arabic text is never blank. */
  lemma ArabicTextNotBlank(text: string)
    requires IsArabicText(text)
    ensures !Blank(text)
  {
    var i :| 0 <= i < |text| && IsArabicChar(text[i]);
    assert !IsSpace(text[i]);
  }

  /** The `(src_auto, tgt_auto)` pair of the Translate tab: with auto-detection
      on and a text that is not blank, Arabic text is translated into English
      and anything else into Arabic; otherwise the sidebar's pair is kept,
      even when both of its languages are the same. */
  function DetectPair(autoDetect: bool, text: string, src: Lang, tgt: Lang): (pair: (Lang, Lang))
    ensures autoDetect && !Blank(text) ==>
      pair.0 != pair.1 && (pair.0 == Arabic <==> exists i :: 0 <= i < |text| && IsArabicChar(text[i]))
    ensures !autoDetect || Blank(text) ==> pair == (src, tgt)
  {
    if autoDetect && Strip(text) != [] then
      if IsArabicText(text) then (Arabic, English) else (English, Arabic)
    else (src, tgt)
  }

  /** With auto-detection on, any Arabic character makes Arabic the source,
      whatever else the text holds. */
  lemma ArabicAlwaysDetected(text: string, src: Lang, tgt: Lang)
    requires IsArabicText(text)
    ensures DetectPair(true, text, src, tgt) == (Arabic, English)
  {
    ArabicTextNotBlank(text);
  }
}
