/**
  The per-message decision of `Application.on_message`: NG filter, optional name prefix, the
  replacement rules in dictionary order, a gate on the two engine selections, language
  classification, and routing to one of three speech backends. The result is the backend call the
  source would make, as an `Action`, or `Drop` when it makes none.
 */
module Messages {
  import opened Text
  import opened Language
  import opened ReplaceDict
  import Speakers

  /** The regular-expression engine: `re.sub(pattern, replacement, text)`. */
  type Substitution = (string, string, string) -> string

  /** The settings `on_message` reads, as they stand when the message arrives. */
  datatype Settings = Settings(
    ngUsers: seq<string>,
    ngComments: seq<string>,
    replaceDict: seq<Replacement>,
    announceName: bool,
    japaneseEngine: string,
    otherEngine: string,
    speakerMap: map<string, int>,
    volume: int,
    speed: int,
    credentialsPath: string)

  /** The backend call made for one message, with its arguments. */
  datatype Action =
    | Drop
    | BouyomiChan(text: string, volume: int, speed: int)
    | VoiceBox(speaker: int, text: string, volume: int, speed: int)
    | GoogleTts(credentialsPath: string, text: string, volume: int, speed: int, languageCode: string)

  const BOUYOMI_ENGINE := "棒読みちゃん"
  const GOOGLE_ENGINE := "Google読み上げ"
  const VOICEBOX_MARKER := "VOICEBOX"
  const NAME_SEPARATOR := "："

  /** The NG test: the author is an NG user, or some NG comment occurs in the message. */
  predicate IsNg(s: Settings, author: string, content: string) {
    author in s.ngUsers || exists c :: c in s.ngComments && Contains(content, c)
  }

  /** The text before replacement: the content, prefixed by the author's name when names are announced. */
  function Announced(announceName: bool, author: string, content: string): string {
    if announceName then author + NAME_SEPARATOR + content else content
  }

  /** The replacement rules applied left to right, each to the output of the one before. */
  function ApplyReplacements(rules: seq<Replacement>, text: string, sub: Substitution): string {
    if rules == [] then text
    else
      var last := rules[|rules| - 1];
      sub(last.pattern, last.text, ApplyReplacements(rules[..|rules| - 1], text, sub))
  }

  /** Applying a list of rules is applying its first part, then its second part to the result. */
  lemma {:induction false} ApplyReplacementsAppend(rs: seq<Replacement>, rs': seq<Replacement>, text: string, sub: Substitution)
    ensures ApplyReplacements(rs + rs', text, sub) == ApplyReplacements(rs', ApplyReplacements(rs, text, sub), sub)
  {
    if rs' == [] {
      assert rs + rs' == rs;
    } else {
      var all := rs + rs';
      assert all[..|all| - 1] == rs + rs'[..|rs'| - 1];
      assert all[|all| - 1] == rs'[|rs'| - 1];
      ApplyReplacementsAppend(rs, rs'[..|rs'| - 1], text, sub);
    }
  }

  /** The first rule sees the original text, and every later rule sees its output. */
  lemma FirstRuleSeesOriginal(r: Replacement, rs: seq<Replacement>, text: string, sub: Substitution)
    ensures ApplyReplacements([r] + rs, text, sub) == ApplyReplacements(rs, sub(r.pattern, r.text, text), sub)
  {
    ApplyReplacementsAppend([r], rs, text, sub);
    assert ApplyReplacements([r], text, sub) == sub(r.pattern, r.text, text) by {
      assert [r][..0] == [];
    }
  }

  /** The text handed to a backend. */
  function Utterance(s: Settings, author: string, content: string, sub: Substitution): string {
    ApplyReplacements(s.replaceDict, Announced(s.announceName, author, content), sub)
  }

  /** The engine for a language code: the Japanese selection for "ja-JP", the other selection otherwise. */
  function SelectEngine(s: Settings, code: string): string {
    if code == JAPANESE then s.japaneseEngine else s.otherEngine
  }

  /**
    The routing table: an engine containing "VOICEBOX" goes to VoiceBox with its speaker id (no call
    when the speaker map lacks it), the Google engine goes to Google TTS with the language code, and
    every other engine goes to BouyomiChan. Text, volume and speed pass through unchanged.
   */
  function Route(s: Settings, engine: string, text: string, code: string): (a: Action)
    ensures a.VoiceBox? <==> Contains(engine, VOICEBOX_MARKER) && engine in s.speakerMap
    ensures a.VoiceBox? ==> a.speaker == s.speakerMap[engine]
    ensures a.Drop? <==> Contains(engine, VOICEBOX_MARKER) && engine !in s.speakerMap
    ensures a.GoogleTts? <==> !Contains(engine, VOICEBOX_MARKER) && engine == GOOGLE_ENGINE
    ensures a.GoogleTts? ==> a.languageCode == code && a.credentialsPath == s.credentialsPath
    ensures a.BouyomiChan? <==> !Contains(engine, VOICEBOX_MARKER) && engine != GOOGLE_ENGINE
    ensures !a.Drop? ==> a.text == text && a.volume == s.volume && a.speed == s.speed
  {
    if Contains(engine, VOICEBOX_MARKER) then
      if engine in s.speakerMap then VoiceBox(s.speakerMap[engine], text, s.volume, s.speed) else Drop
    else if engine == GOOGLE_ENGINE then
      GoogleTts(s.credentialsPath, text, s.volume, s.speed, code)
    else
      BouyomiChan(text, s.volume, s.speed)
  }

  /**
    `on_message`: an NG message is dropped whatever else is set; otherwise the utterance is built,
    and the message is dropped when either engine selection is empty, even the one not used;
    otherwise the utterance is routed by the engine chosen for its language code.
   */
  method OnMessage(s: Settings, author: string, content: string, sub: Substitution, detect: Detector)
    returns (action: Action)
    ensures IsNg(s, author, content) ==> action == Drop
    ensures !IsNg(s, author, content) && (s.japaneseEngine == [] || s.otherEngine == []) ==> action == Drop
    ensures !IsNg(s, author, content) && s.japaneseEngine != [] && s.otherEngine != [] ==>
              var text := Utterance(s, author, content, sub);
              var code := LanguageCode(text, detect);
              action == Route(s, SelectEngine(s, code), text, code)
  {
    if author in s.ngUsers || exists c :: c in s.ngComments && Contains(content, c) {
      return Drop;
    }
    var messageText := content;
    if s.announceName {
      messageText := author + NAME_SEPARATOR + messageText;
    }
    var i := 0;
    while i < |s.replaceDict|
      invariant 0 <= i <= |s.replaceDict|
      invariant messageText == ApplyReplacements(s.replaceDict[..i], Announced(s.announceName, author, content), sub)
    {
      var rule := s.replaceDict[i];
      assert s.replaceDict[..i + 1][..i] == s.replaceDict[..i];
      messageText := sub(rule.pattern, rule.text, messageText);
      i := i + 1;
    }
    assert s.replaceDict[..i] == s.replaceDict;

    if s.japaneseEngine == [] || s.otherEngine == [] {
      return Drop;
    }
    var code := if IsJapanese(messageText) then JAPANESE else DetectLanguage(messageText, detect);
    var engine := if code == JAPANESE then s.japaneseEngine else s.otherEngine;
    if Contains(engine, VOICEBOX_MARKER) {
      if engine in s.speakerMap {
        action := VoiceBox(s.speakerMap[engine], messageText, s.volume, s.speed);
      } else {
        action := Drop;
      }
    } else if engine == GOOGLE_ENGINE {
      action := GoogleTts(s.credentialsPath, messageText, s.volume, s.speed, code);
    } else {
      action := BouyomiChan(messageText, s.volume, s.speed);
    }
  }

  /** A string without the letter V never contains "VOICEBOX". */
  lemma NoMarkerWithoutV(engine: string)
    requires 'V' !in engine
    ensures !Contains(engine, VOICEBOX_MARKER)
  {
    if Contains(engine, VOICEBOX_MARKER) {
      ContainsFirstChar(engine, VOICEBOX_MARKER);
    }
  }

  /** No engine the selection boxes offer reaches VoiceBox: catalog keys and the two fixed names all lack "VOICEBOX". */
  lemma OfferedEnginesAvoidVoiceBox(speakers: seq<Speakers.Speaker>, engine: string)
    requires engine in Speakers.Catalog(speakers) || engine == BOUYOMI_ENGINE || engine == GOOGLE_ENGINE
    ensures !Contains(engine, VOICEBOX_MARKER)
  {
    if engine in Speakers.Catalog(speakers) {
      Speakers.CatalogKeyLetters(speakers, engine);
    }
    NoMarkerWithoutV(engine);
  }

  /**
    A character/style chosen from the speaker catalog is spoken by BouyomiChan, never by VoiceBox,
    whatever the speaker map holds.
   */
  lemma CatalogSelectionGoesToBouyomiChan(speakers: seq<Speakers.Speaker>, s: Settings, engine: string, text: string, code: string)
    requires engine in Speakers.Catalog(speakers)
    ensures Route(s, engine, text, code) == BouyomiChan(text, s.volume, s.speed)
  {
    Speakers.CatalogKeyLetters(speakers, engine);
    NoMarkerWithoutV(engine);
    assert GOOGLE_ENGINE[0] == 'G';
  }
}
