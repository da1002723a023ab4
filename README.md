# RetroYomiageTwitcher core, in Dafny

RetroYomiageTwitcher reads Twitch chat aloud. This project models the decision and editing logic at
its centre:

- **Messages.** `Application.on_message` decides what happens to one chat message. NG users and NG
  comments drop it. Otherwise the author's name is prefixed when names are announced, and the
  replacement rules are applied in dictionary order. The message is dropped when either engine
  selection is empty. Otherwise the text is classified as Japanese (`is_japanese`) or handed to a
  language detector with an "en" fallback (`detect_language`), and one speech backend is chosen:
  BouyomiChan, VoiceBox with a speaker id, or Google TTS with a language code. The result is an
  `Action` value naming the backend call and its arguments.
- **Speakers.** `get_speaker_map` walks the decoded VOICEVOX `/speakers` list and keeps the
  allow-listed (character, style) pairs. Each pair becomes a key `name（style）` mapped to the
  style id.
- **SettingsCodec.** The NG lists and the channel list are stored as comma-joined strings. They are
  read back by splitting, and for NG lists also by stripping and dropping empty pieces.
- **Editors.** The NG list dialog, the channel list of the main window and the replacement rule
  dialog add and remove entries in place. Each is a class whose methods update its collection.
- **Text** and **ReplaceDict** supply the Python behaviour the rest depends on:
  - `str.strip` with Python's white-space set;
  - `in` on strings;
  - `split` and `join` on one character;
  - `split(' => ')[0]`;
  - an insertion-ordered dictionary.

Two foreign functions are parameters:

- `re.sub` is a `Substitution`, a total function of (pattern, replacement, text);
- `langdetect.detect` is a `Detector` that returns `None` where the library raises its detection
  exception.

## Model

| member | source | states |
|---|---|---|
| Text.Strip | RetroYomiageTwitcher.py:265 | The result is a slice of the input that neither starts nor ends with white space. Everything cut off on either side is white space (Python's `isspace` set, U+3000 included). |
| Text.StripFixesStripped | RetroYomiageTwitcher.py:71-72 | Stripping leaves a string unchanged exactly when it has no white space at either end. |
| Text.StripIdempotent | RetroYomiageTwitcher.py:71-72 | Stripping twice gives the same result as stripping once. |
| Text.Split | RetroYomiageTwitcher.py:67-68 | `split(',')` always gives at least one piece. No piece contains the separator. Joining the pieces gives back the input. |
| Text.Join | RetroYomiageTwitcher.py:42-43 | Joining no items gives the empty string. Joining one item gives that item. |
| Text.SplitJoin | RetroYomiageTwitcher.py:35 | Splitting undoes joining whenever there is at least one item and no item holds the separator. |
| Text.FieldBefore | RetroYomiageTwitcher.py:330 | `s.split(sep)[0]` is a prefix of `s` with no occurrence of `sep` starting inside it. When shorter than `s`, it is followed by `sep`. It is all of `s` exactly when `sep` does not occur. |
| SettingsCodec.CleanPieces | RetroYomiageTwitcher.py:71-72 | Every item kept is non-empty, stripped and comma-free. No more items come out than pieces went in. |
| SettingsCodec.CleanPiecesKeeps | RetroYomiageTwitcher.py:71-72 | Every piece that is not blank is kept, in stripped form. |
| SettingsCodec.CleanPiecesFrom | RetroYomiageTwitcher.py:71-72 | Every item kept is the non-empty stripped form of some piece. |
| SettingsCodec.CleanPiecesSingle | RetroYomiageTwitcher.py:71-72 | One piece gives its stripped text, or nothing when that is empty. |
| SettingsCodec.CleanPiecesAppend | RetroYomiageTwitcher.py:71-72 | The pieces of a concatenation give their results in order, so kept items keep the stored order. Together with `CleanPiecesSingle`, this fixes the result completely. |
| SettingsCodec.DecodeNgList | RetroYomiageTwitcher.py:67-72 | Every item loaded is non-empty, stripped and comma-free. |
| SettingsCodec.DecodeNgListContents | RetroYomiageTwitcher.py:67-72 | The loaded items are exactly the non-blank comma-separated pieces of the stored string, each stripped. |
| SettingsCodec.HandEditedListLoadsClean | RetroYomiageTwitcher.py:67-72 | The stored string " a , ,b" loads as ["a", "b"]. |
| SettingsCodec.DecodeChannels | RetroYomiageTwitcher.py:59 | The loaded channel list is never empty and holds no comma. Saving it again gives back the stored string. |
| SettingsCodec.CleanPiecesKeepsStorable | RetroYomiageTwitcher.py:71-72 | Pieces that are already non-empty, stripped and comma-free pass through unchanged. |
| SettingsCodec.NgListRoundTrip | RetroYomiageTwitcher.py:42-43 | Saving then loading an NG list gives the same list when every item is non-empty, stripped and comma-free. |
| SettingsCodec.NgListReloadStable | RetroYomiageTwitcher.py:67-72 | Once a list has been loaded, every further save and load gives it back unchanged. |
| SettingsCodec.NgListEmptyDecodes | RetroYomiageTwitcher.py:67-72 | A missing or empty entry loads as the empty list. |
| SettingsCodec.NgItemWithCommaIsLost | RetroYomiageTwitcher.py:42 | An NG item `a,b` is stored as `a,b` and does not come back as that one item. |
| SettingsCodec.ChannelsRoundTrip | RetroYomiageTwitcher.py:35 | Saving then loading a non-empty, comma-free channel list gives the same list. |
| SettingsCodec.EmptyChannelsReloadAsBlank | RetroYomiageTwitcher.py:59 | An empty channel list comes back as `[""]`, not as `[]`. |
| Language.IsJapanese | RetroYomiageTwitcher.py:522-524 | True exactly when some character lies in U+3040..U+30FF or U+4E00..U+9FFF. |
| Language.IsJapaneseConcat | RetroYomiageTwitcher.py:522-524 | A concatenation is Japanese exactly when one of its parts is. Adding text on either side never removes the property. |
| Language.EmptyIsNotJapanese | RetroYomiageTwitcher.py:522-524 | The empty string is not Japanese. |
| Language.GreetingIsJapanese | RetroYomiageTwitcher.py:522-524 | "こんにちは" is Japanese and "hello" is not. |
| Language.DetectLanguage | RetroYomiageTwitcher.py:526-530 | The detector's code when detection succeeds, and "en" when it raises. |
| Language.LanguageCode | RetroYomiageTwitcher.py:510 | Japanese text gets "ja-JP". Other text gets the detector's code, or "en" when detection fails. The code is "ja-JP" exactly when the text is Japanese or the detector itself answers "ja-JP". |
| Language.EmptyTextFallsBack | RetroYomiageTwitcher.py:526-530 | An empty utterance on which detection fails gets "en". |
| Speakers.GetSpeakerMap | RetroYomiageTwitcher.py:166-174 | The nested loop builds exactly the catalog defined speaker by speaker and style by style. |
| Speakers.AllowedKeysCount | RetroYomiageTwitcher.py:159-164 | The allow-list yields at most six keys. |
| Speakers.AllowedKeyListed | RetroYomiageTwitcher.py:159-164 | Every allow-listed (character, style) pair has its key among those six. |
| Speakers.CatalogSound | RetroYomiageTwitcher.py:166-174 | Every catalog key is `name（style）` for an allow-listed pair present in the input, and maps to that style's id. |
| Speakers.CatalogComplete | RetroYomiageTwitcher.py:166-174 | Every allow-listed pair present in the input has its key in the catalog. |
| Speakers.CatalogLastWins | RetroYomiageTwitcher.py:174 | A key's value is the id of the last style in the walk that produces that key. Later duplicates overwrite earlier ones. |
| Speakers.CatalogBounded | RetroYomiageTwitcher.py:159-174 | The catalog only holds allow-listed keys, so it has at most six entries. |
| Speakers.AllowedPairLetters | RetroYomiageTwitcher.py:159-164 | The key of an allow-listed pair contains neither 'V' nor 'G'. |
| Speakers.CatalogKeyLetters | RetroYomiageTwitcher.py:173 | No catalog key contains a 'V' or a 'G'. |
| ReplaceDict.Lookup | RetroYomiageTwitcher.py:320 | Reading key `k` from the dictionary. The source never calls it directly. It is the read used to state what the assignment `d[k] = v` does. It is absent exactly when `k` is not a key, and otherwise it is the value of an entry with key `k`. |
| ReplaceDict.Put | RetroYomiageTwitcher.py:320 | `d[k] = v` keeps the key order when `k` exists and appends `k` when it is new. `k` then maps to `v` and every other key keeps its value. Keys stay distinct. |
| ReplaceDict.Delete | RetroYomiageTwitcher.py:331 | `del d[k]` keeps exactly the entries whose key is not `k`. Keys stay distinct. |
| ReplaceDict.DeleteAt | RetroYomiageTwitcher.py:331 | In a dictionary, deleting the key of entry `i` removes that entry and keeps the others in order. |
| ReplaceDict.DeleteAbsent | RetroYomiageTwitcher.py:331 | Deleting a key that is absent changes nothing. |
| ReplaceDict.KeyRecoveredExactly | RetroYomiageTwitcher.py:313-314 | The key recovered from the line `key => value` is the key exactly when " => " does not occur in `key + " =>"`. |
| ReplaceDict.KeyEndingInArrowHeadIsLost | RetroYomiageTwitcher.py:330 | The key "a =>" holds no " => ", but its line "a => => v" gives back the key "a". |
| Messages.ApplyReplacementsAppend | RetroYomiageTwitcher.py:501-502 | Applying a list of rules applies its first part, then applies its second part to that output. |
| Messages.FirstRuleSeesOriginal | RetroYomiageTwitcher.py:497-502 | The first rule sees the prefixed text, and each later rule sees the previous rule's output. |
| Messages.Route | RetroYomiageTwitcher.py:513-520 | Backend by engine name, stated in both directions: (1) a name containing "VOICEBOX" goes to VoiceBox with its speaker id, and is dropped when the speaker map lacks it; (2) the Google name goes to Google TTS with the language code and credentials path; (3) every other name goes to BouyomiChan. Text, volume and speed pass through unchanged. |
| Messages.OnMessage | RetroYomiageTwitcher.py:494-520 | An NG author or NG comment drops the message whatever else is set. Otherwise either empty selection drops it. Otherwise the replaced, possibly prefixed text is routed by the engine chosen for its language code. The replacement loop keeps the text equal to the fold over the rules seen so far. |
| Messages.NoMarkerWithoutV | RetroYomiageTwitcher.py:513 | A name without the letter V never contains "VOICEBOX". |
| Messages.OfferedEnginesAvoidVoiceBox | RetroYomiageTwitcher.py:408-412 | None of the engine names the selection boxes offer contains "VOICEBOX": not the catalog keys, and neither of the two fixed names. |
| Messages.CatalogSelectionGoesToBouyomiChan | RetroYomiageTwitcher.py:513-520 | A character and style chosen from the speaker catalog is spoken by BouyomiChan, never by VoiceBox, whatever the speaker map holds. |
| Editors.RemoveFirst | RetroYomiageTwitcher.py:276 | `list.remove(x)` removes one occurrence of `x` when it is present, as a multiset difference. Otherwise the list is unchanged. |
| Editors.RemoveFirstAt | RetroYomiageTwitcher.py:276 | Removing the element at `i`, when it does not occur earlier, keeps every other element in order. |
| Editors.RemoveSelectedElement | RetroYomiageTwitcher.py:274-276 | In a duplicate-free list, removing the selected row's value removes exactly that row. |
| Editors.RemoveFirstKeepsNoDuplicates | RetroYomiageTwitcher.py:276 | Removal keeps a list duplicate-free. |
| Editors.RemoveFirstRemovesAll | RetroYomiageTwitcher.py:467 | In a duplicate-free list, a removed element is gone. |
| Editors.NgDialog.constructor | RetroYomiageTwitcher.py:237 | The dialog edits the list it is given. |
| Editors.NgDialog.AddItem | RetroYomiageTwitcher.py:264-270 | The stripped entry is appended exactly when it is non-empty and not yet listed, and only then is the list saved. Otherwise the list is unchanged. A duplicate-free list stays duplicate-free. |
| Editors.NgDialog.RemoveItem | RetroYomiageTwitcher.py:272-278 | With a row selected, the first occurrence of its value is removed and the list is saved. In a duplicate-free list this is exactly the selected row, with the order of the rest kept. Without a selection nothing changes. |
| Editors.Application.constructor | RetroYomiageTwitcher.py:345 | The main window edits the channel list it loaded. |
| Editors.Application.AddChannel | RetroYomiageTwitcher.py:457-462 | The stripped entry is appended exactly when it is non-empty and not yet listed, and only then are the settings saved. A duplicate-free list stays duplicate-free. |
| Editors.Application.RemoveChannel | RetroYomiageTwitcher.py:464-469 | A listed channel loses one occurrence and the settings are saved. An unlisted one changes nothing. In a duplicate-free list the channel is then gone and the list stays duplicate-free. |
| Editors.ReplaceDialog.constructor | RetroYomiageTwitcher.py:287 | The dialog edits the dictionary it is given. |
| Editors.ReplaceDialog.AddItem | RetroYomiageTwitcher.py:316-324 | With a non-empty stripped key and value, it sets `dict[key] = value` and saves: a new key goes at the end, an existing key keeps its place. An empty key or value changes nothing. |
| Editors.ReplaceDialog.RemoveItem | RetroYomiageTwitcher.py:326-333 | As written: it deletes the key recovered from the selected line when that is a key, and saves. Otherwise `del` raises and nothing changes. |
| Editors.ReplaceDialog.RemoveSelected | RetroYomiageTwitcher.py:326-333 | As intended: the selected entry goes, the rest keep their order, and keys stay distinct. |
| Editors.RemovalsAgree | RetroYomiageTwitcher.py:326-333 | When " => " does not occur in `key + " =>"`, the recovered key is the selected key, and the two removals delete exactly the selected entry. |
| Editors.RemovalOfWrongEntry | RetroYomiageTwitcher.py:330-331 | In the dictionary {"a": "x", "a =>": "v"}, removing the line of "a =>" deletes the entry "a" instead. |

## Left out

- The tkinter GUI: windows, list boxes, menus and message boxes. Entry text and the selected row or channel are method parameters. The save callbacks are modelled as the returned `saved` flag.
- The speech backends BouyomiChan, VoiceBox and Google TTS (lines 84-151): HTTP, the cloud API, credentials and audio playback. The model stops at the `Action` naming the call.
- The `/ 100.0` scaling of volume and speed inside the backends. It is floating point, and the model passes the slider values on unchanged.
- The HTTP request and JSON decoding in `get_speaker_map` (lines 154-155). The model starts from decoded records, so it does not model the `KeyError` a missing field raises in the loop (lines 167-172). There, a speaker's "name" is read for every record. "styles" is read only for an allow-listed name. A style's "name" is read only under such a speaker, and "id" only for an allow-listed style.
- Messages.OnMessage: `re.sub` is a total parameter, so a replacement pattern that is not a valid regular expression (which raises in the source) is not modelled.
- The `print` of the utterance at line 507, which has no effect on the decision.
- `configparser` file reading and writing, `os.path.exists` and the library's lower-casing of option names. Only the join, split and strip string logic is modelled. `save_replace_settings` and `load_replace_settings` are therefore left out.
- `TwitchBot`, connecting and disconnecting channels, the asyncio loop and the background thread. This includes the case-insensitive self-message skip at line 555, which relies on Unicode `lower()`.
- Aliasing between the editors and `Application`. An `NGDialog` edits the same list object as `Application.ng_users` or `ng_comments` (lines 434-437). A `ReplaceDialog` edits the same dict object as `Application.replace_dict` (lines 440, 287). In the model each editor owns its collection, so the model does not capture that the application's copy changes along with it.

## Findings

| source | as written | input that shows it | evidently intended | confidence | as-written member | corrected member |
|---|---|---|---|---|---|---|
| RetroYomiageTwitcher.py:330 | `remove_item` recovers the key as the text before the first " => " in the line `key => value`. | Key "a =>" with value "v" is shown as "a => => v", which gives back "a". This raises `KeyError`, or deletes the entry "a" when that key exists. | Removing a row deletes the entry shown in that row. | high; not executed | Editors.ReplaceDialog.RemoveItem, Editors.RemovalOfWrongEntry, ReplaceDict.KeyEndingInArrowHeadIsLost | Editors.ReplaceDialog.RemoveSelected, Editors.RemovalsAgree |
