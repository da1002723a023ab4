/**
  The editors behind the settings dialogs: the NG-user and NG-comment lists (`NGDialog`), the
  channel list of the main window (`Application.add_channel` / `remove_channel`) and the
  replacement rules (`ReplaceDialog`). Each keeps the edited collection in a field and changes it in
  place; what the user typed or selected arrives as a parameter. Each method returns whether it
  handed the collection to the save callback, which the source does exactly when it changed it.
 */
module Editors {
  import opened Wrappers
  import opened Text
  import opened ReplaceDict

  /** No element occurs twice. */
  predicate NoDuplicates(xs: seq<string>) {
    forall i, j :: 0 <= i < j < |xs| ==> xs[i] != xs[j]
  }

  /** Python's `xs.remove(x)`: the first occurrence of `x` goes; nothing changes when there is none. */
  function RemoveFirst(xs: seq<string>, x: string): (r: seq<string>)
    ensures x in xs ==> multiset(r) == multiset(xs) - multiset{x}
    ensures x !in xs ==> r == xs
  {
    if xs == [] then []
    else
      assert xs == [xs[0]] + xs[1..];
      if xs[0] == x then xs[1..]
      else [xs[0]] + RemoveFirst(xs[1..], x)
  }

  /** Removing the element at `i`, when it does not occur earlier, keeps the others in order. */
  lemma {:induction false} RemoveFirstAt(xs: seq<string>, i: int)
    requires 0 <= i < |xs| && xs[i] !in xs[..i]
    ensures RemoveFirst(xs, xs[i]) == xs[..i] + xs[i + 1..]
  {
    if i > 0 {
      var x, tail := xs[i], xs[1..];
      assert xs[0] != x by { assert xs[0] in xs[..i]; }
      assert tail[i - 1] == x;
      assert x !in tail[..i - 1] by { assert tail[..i - 1] == xs[..i][1..]; }
      RemoveFirstAt(tail, i - 1);
      calc {
        RemoveFirst(xs, x);
        [xs[0]] + RemoveFirst(tail, x);
        [xs[0]] + (tail[..i - 1] + tail[i..]);
        { assert xs[..i] == [xs[0]] + tail[..i - 1]; assert xs[i + 1..] == tail[i..]; }
        xs[..i] + xs[i + 1..];
      }
    }
  }

  /** In a list without duplicates, removing the selected element removes exactly that position. */
  lemma RemoveSelectedElement(xs: seq<string>, i: int)
    requires NoDuplicates(xs) && 0 <= i < |xs|
    ensures RemoveFirst(xs, xs[i]) == xs[..i] + xs[i + 1..]
  {
    RemoveFirstAt(xs, i);
  }

  /** Removing an element keeps a list free of duplicates. */
  lemma RemoveFirstKeepsNoDuplicates(xs: seq<string>, x: string)
    requires NoDuplicates(xs)
    ensures NoDuplicates(RemoveFirst(xs, x))
  {
    if x in xs {
      var i :| 0 <= i < |xs| && xs[i] == x;
      RemoveSelectedElement(xs, i);
    }
  }

  /** In a list without duplicates, an element is gone once it has been removed. */
  lemma RemoveFirstRemovesAll(xs: seq<string>, x: string)
    requires NoDuplicates(xs) && x in xs
    ensures x !in RemoveFirst(xs, x)
  {
    var i :| 0 <= i < |xs| && xs[i] == x;
    RemoveSelectedElement(xs, i);
    assert x !in xs[..i] && x !in xs[i + 1..];
  }

  /** The NG-user or NG-comment list being edited in an `NGDialog`. */
  class NgDialog {
    var ngList: seq<string>

    constructor (ngList: seq<string>)
      ensures this.ngList == ngList
    {
      this.ngList := ngList;
    }

    /** `add_item`: append the stripped entry if it is non-empty and not yet listed. */
    method AddItem(entry: string) returns (saved: bool)
      modifies this
      ensures saved <==> Strip(entry) != [] && Strip(entry) !in old(ngList)
      ensures ngList == if saved then old(ngList) + [Strip(entry)] else old(ngList)
      ensures NoDuplicates(old(ngList)) ==> NoDuplicates(ngList)
    {
      var item := Strip(entry);
      saved := item != [] && item !in ngList;
      if saved {
        ngList := ngList + [item];
      }
    }

    /** `remove_item`: remove the list-box row `selection` by value, if a row is selected. */
    method RemoveItem(selection: Option<nat>) returns (saved: bool)
      requires selection.Some? ==> selection.value < |ngList|
      modifies this
      ensures saved <==> selection.Some?
      ensures saved ==> ngList == RemoveFirst(old(ngList), old(ngList)[selection.value])
      ensures !saved ==> ngList == old(ngList)
      ensures saved && NoDuplicates(old(ngList)) ==>
                ngList == old(ngList)[..selection.value] + old(ngList)[selection.value + 1..]
      ensures NoDuplicates(old(ngList)) ==> NoDuplicates(ngList)
    {
      saved := selection.Some?;
      if saved {
        var item := ngList[selection.value];
        if NoDuplicates(ngList) {
          RemoveSelectedElement(ngList, selection.value);
          RemoveFirstKeepsNoDuplicates(ngList, item);
        }
        ngList := RemoveFirst(ngList, item);
      }
    }
  }

  /** The channel list of the main window. */
  class Application {
    var channelList: seq<string>

    constructor (channelList: seq<string>)
      ensures this.channelList == channelList
    {
      this.channelList := channelList;
    }

    /** `add_channel`: append the stripped entry if it is non-empty and not yet listed. */
    method AddChannel(entry: string) returns (saved: bool)
      modifies this
      ensures saved <==> Strip(entry) != [] && Strip(entry) !in old(channelList)
      ensures channelList == if saved then old(channelList) + [Strip(entry)] else old(channelList)
      ensures NoDuplicates(old(channelList)) ==> NoDuplicates(channelList)
    {
      var channel := Strip(entry);
      saved := channel != [] && channel !in channelList;
      if saved {
        channelList := channelList + [channel];
      }
    }

    /** `remove_channel`: remove the channel shown in the combo box, if it is listed. */
    method RemoveChannel(selected: string) returns (saved: bool)
      modifies this
      ensures saved <==> selected in old(channelList)
      ensures channelList == RemoveFirst(old(channelList), selected)
      ensures saved ==> multiset(channelList) == multiset(old(channelList)) - multiset{selected}
      ensures NoDuplicates(old(channelList)) ==> NoDuplicates(channelList)
      ensures NoDuplicates(old(channelList)) ==> selected !in channelList
    {
      saved := selected in channelList;
      if saved && NoDuplicates(channelList) {
        RemoveFirstKeepsNoDuplicates(channelList, selected);
        RemoveFirstRemovesAll(channelList, selected);
      }
      channelList := RemoveFirst(channelList, selected);
    }
  }

  /** The replacement rules being edited in a `ReplaceDialog`. */
  class ReplaceDialog {
    var replaceDict: seq<Replacement>

    ghost predicate Valid()
      reads this
    {
      DistinctKeys(replaceDict)
    }

    constructor (replaceDict: seq<Replacement>)
      requires DistinctKeys(replaceDict)
      ensures Valid() && this.replaceDict == replaceDict
    {
      this.replaceDict := replaceDict;
    }

    /** `add_item`: with a non-empty stripped key and value, set `dict[key] = value`. */
    method AddItem(keyEntry: string, valueEntry: string) returns (saved: bool)
      requires Valid()
      modifies this
      ensures Valid()
      ensures saved <==> Strip(keyEntry) != [] && Strip(valueEntry) != []
      ensures replaceDict == if saved then Put(old(replaceDict), Strip(keyEntry), Strip(valueEntry))
                             else old(replaceDict)
    {
      var key := Strip(keyEntry);
      var value := Strip(valueEntry);
      saved := key != [] && value != [];
      if saved {
        replaceDict := Put(replaceDict, key, value);
      }
    }

    /**
      `remove_item` as written: the key is recovered from the selected list-box line by taking the
      text before its first " => ", and `del` raises `KeyError` (nothing changes) when that text is
      not a key.
     */
    method RemoveItem(selection: Option<nat>) returns (saved: bool)
      requires Valid()
      requires selection.Some? ==> selection.value < |replaceDict|
      modifies this
      ensures Valid()
      ensures saved <==> selection.Some?
                         && RecoveredKey(Display(old(replaceDict)[selection.value])) in Keys(old(replaceDict))
      ensures replaceDict == if saved then Delete(old(replaceDict), RecoveredKey(Display(old(replaceDict)[selection.value])))
                             else old(replaceDict)
    {
      saved := false;
      if selection.Some? {
        var key := RecoveredKey(Display(replaceDict[selection.value]));
        if key in Keys(replaceDict) {
          replaceDict := Delete(replaceDict, key);
          saved := true;
        }
      }
    }

    /** The intended `remove_item`: the selected entry goes, and only it. */
    method RemoveSelected(selection: Option<nat>) returns (saved: bool)
      requires Valid()
      requires selection.Some? ==> selection.value < |replaceDict|
      modifies this
      ensures Valid()
      ensures saved <==> selection.Some?
      ensures replaceDict == if saved then old(replaceDict)[..selection.value] + old(replaceDict)[selection.value + 1..]
                             else old(replaceDict)
    {
      saved := selection.Some?;
      if saved {
        var i := selection.value;
        DeleteAt(replaceDict, i);
        replaceDict := Delete(replaceDict, replaceDict[i].pattern);
      }
    }
  }

  /**
    The two removals agree on every entry whose key is recovered from its list-box line, which is
    the case exactly when no " => " starts inside the key.
   */
  lemma RemovalsAgree(d: seq<Replacement>, i: int)
    requires DistinctKeys(d) && 0 <= i < |d|
    requires !Contains(d[i].pattern + " =>", ARROW)
    ensures RecoveredKey(Display(d[i])) in Keys(d)
    ensures Delete(d, RecoveredKey(Display(d[i]))) == d[..i] + d[i + 1..]
  {
    KeyRecoveredExactly(d[i]);
    DeleteAt(d, i);
  }

  /** A dictionary with keys "a" and "a =>": removing the line of "a =>" deletes the entry of "a". */
  lemma RemovalOfWrongEntry()
    ensures var d := [Replacement("a", "x"), Replacement("a =>", "v")];
            && DistinctKeys(d)
            && RecoveredKey(Display(d[1])) == "a"
            && Delete(d, RecoveredKey(Display(d[1]))) == [Replacement("a =>", "v")]
  {
    var d := [Replacement("a", "x"), Replacement("a =>", "v")];
    KeyEndingInArrowHeadIsLost();
    DeleteAt(d, 0);
    assert d[1..] == [Replacement("a =>", "v")];
  }
}
