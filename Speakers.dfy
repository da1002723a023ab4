/**
  The VOICEVOX speaker catalog built by `get_speaker_map`: the decoded `/speakers` answer is walked
  speaker by speaker and style by style, and every allow-listed (character, style) pair becomes a
  display key `name（style）` mapped to that style's id. A later occurrence of a key overwrites an
  earlier one, as a dictionary assignment does.
 */
module Speakers {

  datatype Style = Style(name: string, id: int)
  datatype Speaker = Speaker(name: string, styles: seq<Style>)

  /** The allow-list: the characters offered, each with the styles offered for it. */
  const TARGET_CHARACTERS: map<string, seq<string>> := map[
    "ずんだもん" := ["ノーマル", "あまあま"],
    "四国めたん" := ["ノーマル", "あまあま"],
    "春日部つむぎ" := ["ノーマル"],
    "冥鳴ひまり" := ["ノーマル"]
  ]

  predicate Allowed(name: string, style: string) {
    name in TARGET_CHARACTERS && style in TARGET_CHARACTERS[name]
  }

  /** The display key of a (character, style) pair, with full-width parentheses. */
  function Key(name: string, style: string): string {
    name + "（" + style + "）"
  }

  /** Every key the catalog can ever hold: one per allow-listed pair. */
  const ALLOWED_KEYS: set<string> := {
    Key("ずんだもん", "ノーマル"), Key("ずんだもん", "あまあま"),
    Key("四国めたん", "ノーマル"), Key("四国めたん", "あまあま"),
    Key("春日部つむぎ", "ノーマル"), Key("冥鳴ひまり", "ノーマル")
  }

  lemma AllowedKeysCount()
    ensures |ALLOWED_KEYS| <= 6
  {
  }

  lemma AllowedKeyListed(name: string, style: string)
    requires Allowed(name, style)
    ensures Key(name, style) in ALLOWED_KEYS
  {
  }

  /** The catalog after the styles of one character have been walked, in order. */
  function AddStyles(m: map<string, int>, name: string, styles: seq<Style>): map<string, int> {
    if styles == [] then m
    else
      var before := AddStyles(m, name, styles[..|styles| - 1]);
      var style := styles[|styles| - 1];
      if Allowed(name, style.name) then before[Key(name, style.name) := style.id] else before
  }

  function AddSpeaker(m: map<string, int>, speaker: Speaker): map<string, int> {
    if speaker.name in TARGET_CHARACTERS then AddStyles(m, speaker.name, speaker.styles) else m
  }

  /** The catalog `get_speaker_map` returns for the decoded speaker list. */
  function Catalog(speakers: seq<Speaker>): map<string, int> {
    if speakers == [] then map[]
    else AddSpeaker(Catalog(speakers[..|speakers| - 1]), speakers[|speakers| - 1])
  }

  /** `get_speaker_map` after the HTTP request and the JSON decoding: the nested filtering loop. */
  method GetSpeakerMap(speakers: seq<Speaker>) returns (speakerMap: map<string, int>)
    ensures speakerMap == Catalog(speakers)
  {
    speakerMap := map[];
    var i := 0;
    while i < |speakers|
      invariant 0 <= i <= |speakers|
      invariant speakerMap == Catalog(speakers[..i])
    {
      var speaker := speakers[i];
      var name := speaker.name;
      if name in TARGET_CHARACTERS {
        var j := 0;
        while j < |speaker.styles|
          invariant 0 <= j <= |speaker.styles|
          invariant speakerMap == AddStyles(Catalog(speakers[..i]), name, speaker.styles[..j])
        {
          var style := speaker.styles[j];
          if style.name in TARGET_CHARACTERS[name] {
            speakerMap := speakerMap[Key(name, style.name) := style.id];
          }
          assert speaker.styles[..j + 1][..j] == speaker.styles[..j];
          j := j + 1;
        }
        assert speaker.styles[..j] == speaker.styles;
      }
      assert speakers[..i + 1][..i] == speakers[..i];
      i := i + 1;
    }
    assert speakers[..i] == speakers;
  }

  /** Style `j` of speaker `i` is an allow-listed pair whose key is `k`. */
  ghost predicate Matches(speakers: seq<Speaker>, i: int, j: int, k: string) {
    && 0 <= i < |speakers|
    && 0 <= j < |speakers[i].styles|
    && Allowed(speakers[i].name, speakers[i].styles[j].name)
    && Key(speakers[i].name, speakers[i].styles[j].name) == k
  }

  /** Position (i, j) comes strictly before position (i', j') in the walk. */
  ghost predicate Before(i: int, j: int, i': int, j': int) {
    i < i' || (i == i' && j < j')
  }

  /** `k` is matched at (i, j) and at no later position: (i, j) is the last write of `k`. */
  ghost predicate LastMatch(speakers: seq<Speaker>, i: int, j: int, k: string) {
    && Matches(speakers, i, j, k)
    && forall i', j' :: Matches(speakers, i', j', k) ==> !Before(i, j, i', j')
  }

  /** Style `j` of a character's list is allow-listed and has key `k`. */
  ghost predicate WritesKey(name: string, styles: seq<Style>, j: int, k: string) {
    0 <= j < |styles| && Allowed(name, styles[j].name) && Key(name, styles[j].name) == k
  }

  lemma {:induction false} AddStylesKeeps(m: map<string, int>, name: string, styles: seq<Style>, k: string)
    requires k in m
    ensures k in AddStyles(m, name, styles)
  {
    if styles != [] {
      AddStylesKeeps(m, name, styles[..|styles| - 1], k);
    }
  }

  lemma {:induction false} AddStylesWrites(m: map<string, int>, name: string, styles: seq<Style>, j: int)
    requires 0 <= j < |styles| && Allowed(name, styles[j].name)
    ensures Key(name, styles[j].name) in AddStyles(m, name, styles)
  {
    var n := |styles|;
    if j < n - 1 {
      AddStylesWrites(m, name, styles[..n - 1], j);
    }
  }

  /** A key no style of the list writes keeps its presence and its value. */
  lemma {:induction false} AddStylesUntouched(m: map<string, int>, name: string, styles: seq<Style>, k: string)
    requires forall j :: 0 <= j < |styles| ==> !WritesKey(name, styles, j, k)
    ensures k in AddStyles(m, name, styles) <==> k in m
    ensures k in m ==> AddStyles(m, name, styles)[k] == m[k]
  {
    var n := |styles|;
    if n > 0 {
      var init := styles[..n - 1];
      assert !WritesKey(name, styles, n - 1, k);
      forall j | 0 <= j < |init| ensures !WritesKey(name, init, j, k) {
        assert !WritesKey(name, styles, j, k);
      }
      AddStylesUntouched(m, name, init, k);
    }
  }

  /** The last style of the list that writes a key decides its value. */
  lemma {:induction false} AddStylesLast(m: map<string, int>, name: string, styles: seq<Style>, j: int, k: string)
    requires WritesKey(name, styles, j, k)
    requires forall j' :: j < j' < |styles| ==> !WritesKey(name, styles, j', k)
    ensures k in AddStyles(m, name, styles) && AddStyles(m, name, styles)[k] == styles[j].id
  {
    var n := |styles|;
    if j < n - 1 {
      var init := styles[..n - 1];
      assert !WritesKey(name, styles, n - 1, k);
      forall j' | j < j' < |init| ensures !WritesKey(name, init, j', k) {
        assert !WritesKey(name, styles, j', k);
      }
      AddStylesLast(m, name, init, j, k);
    }
  }

  /** A value in the catalog after a character's styles came from the map before or from one of the styles. */
  lemma {:induction false} AddStylesSound(m: map<string, int>, name: string, styles: seq<Style>, k: string)
    requires k in AddStyles(m, name, styles)
    ensures || (k in m && AddStyles(m, name, styles)[k] == m[k])
            || exists j :: WritesKey(name, styles, j, k) && AddStyles(m, name, styles)[k] == styles[j].id
  {
    var n := |styles|;
    if n > 0 {
      var style := styles[n - 1];
      if Allowed(name, style.name) && Key(name, style.name) == k {
        assert WritesKey(name, styles, n - 1, k);
      } else {
        AddStylesSound(m, name, styles[..n - 1], k);
        if !(k in m && AddStyles(m, name, styles[..n - 1])[k] == m[k]) {
          var j :| WritesKey(name, styles[..n - 1], j, k) && AddStyles(m, name, styles[..n - 1])[k] == styles[..n - 1][j].id;
          assert WritesKey(name, styles, j, k);
        }
      }
    }
  }

  /** Every key of the catalog comes from an allow-listed pair of the input and maps to that pair's style id. */
  lemma {:induction false} CatalogSound(speakers: seq<Speaker>, k: string)
    requires k in Catalog(speakers)
    ensures exists i, j :: Matches(speakers, i, j, k) && Catalog(speakers)[k] == speakers[i].styles[j].id
  {
    var n := |speakers|;
    var prefix := speakers[..n - 1];
    var last := speakers[n - 1];
    var before := Catalog(prefix);
    if last.name in TARGET_CHARACTERS {
      AddStylesSound(before, last.name, last.styles, k);
      if exists j :: WritesKey(last.name, last.styles, j, k) && Catalog(speakers)[k] == last.styles[j].id {
        var j :| WritesKey(last.name, last.styles, j, k) && Catalog(speakers)[k] == last.styles[j].id;
        assert Matches(speakers, n - 1, j, k);
        return;
      }
    }
    assert k in before && Catalog(speakers)[k] == before[k];
    CatalogSound(prefix, k);
    var i, j :| Matches(prefix, i, j, k) && before[k] == prefix[i].styles[j].id;
    assert Matches(speakers, i, j, k);
  }

  /** Every allow-listed pair present in the input has its key in the catalog. */
  lemma {:induction false} CatalogComplete(speakers: seq<Speaker>, i: int, j: int, k: string)
    requires Matches(speakers, i, j, k)
    ensures k in Catalog(speakers)
  {
    var n := |speakers|;
    var prefix := speakers[..n - 1];
    var last := speakers[n - 1];
    if i == n - 1 {
      AddStylesWrites(Catalog(prefix), last.name, last.styles, j);
    } else {
      assert Matches(prefix, i, j, k);
      CatalogComplete(prefix, i, j, k);
      if last.name in TARGET_CHARACTERS {
        AddStylesKeeps(Catalog(prefix), last.name, last.styles, k);
      }
    }
  }

  /** The value of a key is the style id of its last occurrence in the walk: later duplicates overwrite. */
  lemma {:induction false} CatalogLastWins(speakers: seq<Speaker>, i: int, j: int, k: string)
    requires LastMatch(speakers, i, j, k)
    ensures k in Catalog(speakers) && Catalog(speakers)[k] == speakers[i].styles[j].id
  {
    var n := |speakers|;
    var prefix := speakers[..n - 1];
    var last := speakers[n - 1];
    if i == n - 1 {
      forall j' | j < j' < |last.styles| ensures !WritesKey(last.name, last.styles, j', k) {
        assert !Matches(speakers, n - 1, j', k);
      }
      assert WritesKey(last.name, last.styles, j, k);
      AddStylesLast(Catalog(prefix), last.name, last.styles, j, k);
    } else {
      forall i', j' | Matches(prefix, i', j', k) ensures !Before(i, j, i', j') {
        assert Matches(speakers, i', j', k);
      }
      CatalogLastWins(prefix, i, j, k);
      if last.name in TARGET_CHARACTERS {
        forall j' | 0 <= j' < |last.styles| ensures !WritesKey(last.name, last.styles, j', k) {
          assert !Matches(speakers, n - 1, j', k);
        }
        AddStylesUntouched(Catalog(prefix), last.name, last.styles, k);
      }
    }
  }

  /** The catalog only holds allow-listed keys, so it has at most six entries. */
  lemma CatalogBounded(speakers: seq<Speaker>)
    ensures Catalog(speakers).Keys <= ALLOWED_KEYS
    ensures |Catalog(speakers)| <= 6
  {
    var keys := Catalog(speakers).Keys;
    forall k | k in keys ensures k in ALLOWED_KEYS {
      CatalogSound(speakers, k);
      var i, j :| Matches(speakers, i, j, k) && Catalog(speakers)[k] == speakers[i].styles[j].id;
      AllowedKeyListed(speakers[i].name, speakers[i].styles[j].name);
    }
    assert ALLOWED_KEYS == keys + (ALLOWED_KEYS - keys);
    AllowedKeysCount();
  }

  /** Allow-listed names and styles are written in Japanese script: they hold neither a 'V' nor a 'G'. */
  lemma AllowedPairLetters(name: string, style: string)
    requires Allowed(name, style)
    ensures 'V' !in Key(name, style) && 'G' !in Key(name, style)
  {
    assert name in {"ずんだもん", "四国めたん", "春日部つむぎ", "冥鳴ひまり"};
    assert style in {"ノーマル", "あまあま"};
    assert 'V' !in name && 'G' !in name && 'V' !in style && 'G' !in style;
  }

  /** Catalog keys hold neither a 'V' nor a 'G'. */
  lemma CatalogKeyLetters(speakers: seq<Speaker>, k: string)
    requires k in Catalog(speakers)
    ensures 'V' !in k && 'G' !in k
  {
    CatalogSound(speakers, k);
    var i, j :| Matches(speakers, i, j, k) && Catalog(speakers)[k] == speakers[i].styles[j].id;
    AllowedPairLetters(speakers[i].name, speakers[i].styles[j].name);
  }
}
