/**
  The replacement rules: a Python dictionary from regular-expression pattern to replacement text,
  which keeps its keys in insertion order. It is modelled as the sequence of its entries in that
  order; a dictionary never holds a key twice.
 */
module ReplaceDict {
  import opened Wrappers
  import opened Text

  datatype Replacement = Replacement(pattern: string, text: string)

  /** The keys, in dictionary order. */
  function Keys(d: seq<Replacement>): (ks: seq<string>)
    ensures |ks| == |d|
    ensures forall i :: 0 <= i < |d| ==> ks[i] == d[i].pattern
  {
    if d == [] then [] else [d[0].pattern] + Keys(d[1..])
  }

  /** No key occurs twice: the shape of every Python dictionary. */
  predicate DistinctKeys(d: seq<Replacement>) {
    forall i, j :: 0 <= i < j < |d| ==> d[i].pattern != d[j].pattern
  }

  /** `d.get(k)`. */
  function Lookup(d: seq<Replacement>, k: string): (r: Option<string>)
    ensures r.None? <==> k !in Keys(d)
    ensures r.Some? ==> exists i :: 0 <= i < |d| && d[i] == Replacement(k, r.value)
  {
    if d == [] then None
    else if d[0].pattern == k then Some(d[0].text)
    else
      var r := Lookup(d[1..], k);
      assert r.Some? ==> exists i :: 0 <= i < |d| - 1 && d[1..][i] == Replacement(k, r.value);
      r
  }

  /**
    `d[k] = v`: an existing key keeps its place and gets the new value; a new key is appended at the
    end. Every other key keeps its value.
   */
  function Put(d: seq<Replacement>, k: string, v: string): (r: seq<Replacement>)
    ensures k in Keys(d) ==> Keys(r) == Keys(d)
    ensures k !in Keys(d) ==> Keys(r) == Keys(d) + [k]
    ensures forall k' :: Lookup(r, k') == if k' == k then Some(v) else Lookup(d, k')
    ensures DistinctKeys(d) ==> DistinctKeys(r)
  {
    if d == [] then [Replacement(k, v)]
    else if d[0].pattern == k then [Replacement(k, v)] + d[1..]
    else
      var rest := Put(d[1..], k, v);
      assert Keys(d) == [d[0].pattern] + Keys(d[1..]);
      assert Keys([d[0]] + rest) == [d[0].pattern] + Keys(rest);
      assert DistinctKeys(d) ==> d[0].pattern !in Keys(d[1..]);
      [d[0]] + rest
  }

  /** `del d[k]` for a key that is present: every entry with that key goes, the rest keep their order. */
  function Delete(d: seq<Replacement>, k: string): (r: seq<Replacement>)
    ensures forall e :: e in r ==> e in d && e.pattern != k
    ensures forall e :: e in d && e.pattern != k ==> e in r
    ensures DistinctKeys(d) ==> DistinctKeys(r)
  {
    if d == [] then []
    else if d[0].pattern == k then Delete(d[1..], k)
    else
      var rest := Delete(d[1..], k);
      assert DistinctKeys(d) ==> forall e :: e in rest ==> e.pattern != d[0].pattern by {
        if DistinctKeys(d) {
          forall e | e in rest ensures e.pattern != d[0].pattern {
            var j :| 0 <= j < |d[1..]| && d[1..][j] == e;
            assert d[j + 1] == e;
          }
        }
      }
      [d[0]] + rest
  }

  /** In a dictionary, deleting the key of entry `i` removes exactly that entry. */
  lemma {:induction false} DeleteAt(d: seq<Replacement>, i: int)
    requires DistinctKeys(d) && 0 <= i < |d|
    ensures Delete(d, d[i].pattern) == d[..i] + d[i + 1..]
  {
    if i == 0 {
      DeleteAbsent(d[1..], d[0].pattern);
    } else {
      assert d[1..][i - 1] == d[i];
      DeleteAt(d[1..], i - 1);
      assert d[..i] + d[i + 1..] == [d[0]] + (d[1..][..i - 1] + d[1..][i..]);
    }
  }

  /** Deleting a key that is absent changes nothing. */
  lemma {:induction false} DeleteAbsent(d: seq<Replacement>, k: string)
    requires k !in Keys(d)
    ensures Delete(d, k) == d
  {
    if d != [] {
      assert Keys(d) == [d[0].pattern] + Keys(d[1..]);
      DeleteAbsent(d[1..], k);
    }
  }

  const ARROW := " => "

  /** The list-box line that shows one entry. */
  function Display(e: Replacement): string {
    e.pattern + ARROW + e.text
  }

  /** The key that `remove_item` recovers from a list-box line: the text before the first " => ". */
  function RecoveredKey(line: string): string {
    FieldBefore(line, ARROW)
  }

  /**
    The key is recovered exactly when " => " does not occur in the key followed by " =>", that is,
    when no occurrence of the arrow starts inside the key.
   */
  lemma KeyRecoveredExactly(e: Replacement)
    ensures RecoveredKey(Display(e)) == e.pattern <==> !Contains(e.pattern + " =>", ARROW)
  {
    if Contains(e.pattern + " =>", ARROW) {
      KeyLostOnEarlyArrow(e);
    } else {
      KeyRecovered(e);
    }
  }

  /** An arrow that starts inside the key is found at the same place in the list-box line. */
  lemma ArrowInsideKey(e: Replacement, i: int)
    requires 0 <= i < |e.pattern|
    ensures ARROW <= Display(e)[i..] <==> ARROW <= (e.pattern + " =>")[i..]
  {
    var k, line := e.pattern, Display(e);
    assert k + " =>" == line[..|k| + 3];
    assert (k + " =>")[i..] == line[i..|k| + 3];
    assert line[i..][..|k| + 3 - i] == line[i..|k| + 3];
  }

  lemma KeyRecovered(e: Replacement)
    requires !Contains(e.pattern + " =>", ARROW)
    ensures RecoveredKey(Display(e)) == e.pattern
  {
    var k, line := e.pattern, Display(e);
    var r := RecoveredKey(line);
    assert ARROW <= line[|k|..] by { assert line[|k|..] == ARROW + e.text; }
    if |r| < |k| {
      ArrowInsideKey(e, |r|);
      ContainsAt(k + " =>", ARROW, |r|);
    }
    assert |r| == |k|;
    assert line[..|k|] == k;
  }

  lemma KeyLostOnEarlyArrow(e: Replacement)
    requires Contains(e.pattern + " =>", ARROW)
    ensures RecoveredKey(Display(e)) != e.pattern
  {
    var k, line := e.pattern, Display(e);
    var i := ContainsWitness(k + " =>", ARROW);
    ArrowInsideKey(e, i);
  }

  /** A key ending in " =>" is not recovered, although it contains no " => ". */
  lemma KeyEndingInArrowHeadIsLost()
    ensures !Contains("a =>", ARROW)
    ensures Display(Replacement("a =>", "v")) == "a => => v"
    ensures RecoveredKey("a => => v") == "a"
  {
    assert !(ARROW <= "a =>");
    assert !(ARROW <= " =>");
    assert !(ARROW <= "=>");
    assert !(ARROW <= ">");
    assert !(ARROW <= "");
    assert "a =>"[1..] == " =>" && " =>"[1..] == "=>" && "=>"[1..] == ">" && ">"[1..] == "";
    assert !(ARROW <= "a => => v");
    assert "a => => v"[1..] == " => => v";
    assert ARROW <= " => => v";
  }
}
