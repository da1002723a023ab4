/**
  The language classifier of the message pipeline: a script test for Japanese (`is_japanese`) and,
  for everything else, an external statistical detector with an "en" fallback (`detect_language`).
 */
module Language {
  import opened Wrappers

  /** The detector library: a language code, or `None` when it raises its detection exception. */
  type Detector = string -> Option<string>

  const JAPANESE := "ja-JP"
  const FALLBACK := "en"

  /** A code point in Hiragana/Katakana (U+3040..U+30FF) or CJK Unified Ideographs (U+4E00..U+9FFF). */
  predicate IsJapaneseChar(c: char) {
    (0x3040 <= c as int <= 0x30FF) || (0x4E00 <= c as int <= 0x9FFF)
  }

  /** `is_japanese`: whether any character of the text is a Japanese code point. */
  function IsJapanese(text: string): (b: bool)
    ensures b <==> exists i :: 0 <= i < |text| && IsJapaneseChar(text[i])
  {
    if text == [] then false
    else
      assert forall i :: 1 <= i < |text| ==> text[i] == text[1..][i - 1];
      IsJapaneseChar(text[0]) || IsJapanese(text[1..])
  }

  /** Adding text on either side never turns Japanese text into non-Japanese text, and vice versa. */
  lemma {:induction false} IsJapaneseConcat(a: string, b: string)
    ensures IsJapanese(a + b) <==> IsJapanese(a) || IsJapanese(b)
  {
    if IsJapanese(a) {
      var i :| 0 <= i < |a| && IsJapaneseChar(a[i]);
      assert (a + b)[i] == a[i];
    }
    if IsJapanese(b) {
      var i :| 0 <= i < |b| && IsJapaneseChar(b[i]);
      assert (a + b)[|a| + i] == b[i];
    }
    if IsJapanese(a + b) {
      var i :| 0 <= i < |a + b| && IsJapaneseChar((a + b)[i]);
      if i < |a| {
        assert a[i] == (a + b)[i];
      } else {
        assert b[i - |a|] == (a + b)[i];
      }
    }
  }

  lemma EmptyIsNotJapanese()
    ensures !IsJapanese("")
  {
  }

  lemma GreetingIsJapanese()
    ensures IsJapanese("こんにちは")
    ensures !IsJapanese("hello")
  {
    assert IsJapaneseChar("こんにちは"[0]);
  }

  /** `detect_language`: the detector's answer, or the fallback when detection fails. */
  function DetectLanguage(text: string, detect: Detector): (code: string)
    ensures detect(text).None? ==> code == FALLBACK
    ensures detect(text).Some? ==> code == detect(text).value
  {
    match detect(text)
    case Some(c) => c
    case None => FALLBACK
  }

  /**
    The language code chosen for an utterance: "ja-JP" for text with a Japanese code point, the
    detector's result otherwise, and "en" when the detector fails.
   */
  function LanguageCode(text: string, detect: Detector): (code: string)
    ensures IsJapanese(text) ==> code == JAPANESE
    ensures !IsJapanese(text) && detect(text).Some? ==> code == detect(text).value
    ensures !IsJapanese(text) && detect(text).None? ==> code == FALLBACK
    ensures code == JAPANESE <==> IsJapanese(text) || detect(text) == Some(JAPANESE)
  {
    if IsJapanese(text) then JAPANESE else DetectLanguage(text, detect)
  }

  /** The empty utterance is never Japanese; a failing detector then yields "en". */
  lemma EmptyTextFallsBack(detect: Detector)
    requires detect("").None?
    ensures LanguageCode("", detect) == FALLBACK
  {
  }
}
