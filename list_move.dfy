/** Single-element list edits used by the reorder engine: the `arrayMove` of
    the sortable drag-and-drop library and the one-element `splice` insert. */
module ListMove {

  /** The list without its element at index i. */
  function RemoveAt<T>(s: seq<T>, i: nat): (r: seq<T>)
    requires i < |s|
    ensures |r| == |s| - 1
    ensures forall k :: 0 <= k < i ==> r[k] == s[k]
    ensures forall k :: i <= k < |r| ==> r[k] == s[k + 1]
    ensures multiset(r) + multiset{s[i]} == multiset(s)
  {
    assert s == s[..i] + [s[i]] + s[i + 1..];
    s[..i] + s[i + 1..]
  }

  /** `splice(i, 0, x)`: the list with x inserted before index i. */
  function InsertAt<T>(s: seq<T>, i: nat, x: T): (r: seq<T>)
    requires i <= |s|
    ensures |r| == |s| + 1 && r[i] == x
    ensures forall k :: 0 <= k < i ==> r[k] == s[k]
    ensures forall k :: i < k < |r| ==> r[k] == s[k - 1]
    ensures multiset(r) == multiset(s) + multiset{x}
    ensures RemoveAt(r, i) == s
  {
    assert s == s[..i] + s[i..];
    s[..i] + [x] + s[i..]
  }

  /** The index where a moved element ends up: `splice` clamps a start
      beyond the end of the shortened list to its length. */
  function Landing(n: nat, to: nat): (k: nat)
    requires n > 0
    ensures k < n && (to < n ==> k == to) && (to >= n ==> k == n - 1)
  {
    if to < n then to else n - 1
  }

  /** `arrayMove(s, from, to)`: remove the element at `from`, then insert it at
      `to` in the shortened list. A move, not a swap: the elements between the
      two positions shift by one. */
  function Move<T>(s: seq<T>, from: nat, to: nat): (r: seq<T>)
    requires from < |s|
    ensures |r| == |s|
    ensures r[Landing(|s|, to)] == s[from]
    ensures multiset(r) == multiset(s)
    ensures RemoveAt(r, Landing(|s|, to)) == RemoveAt(s, from)
  {
    var rest := RemoveAt(s, from);
    InsertAt(rest, Landing(|s|, to), s[from])
  }

  /** Moving an element onto its own index gives back the same list. */
  lemma MoveToSelf<T>(s: seq<T>, i: nat)
    requires i < |s|
    ensures Move(s, i, i) == s
  {
    assert s == s[..i] + [s[i]] + s[i + 1..];
  }

  /** The position in the original list that the element at position k of
      the moved list comes from. */
  function MoveSource(n: nat, from: nat, to: nat, k: nat): (j: nat)
    requires from < n && k < n
    ensures j < n
  {
    var t := Landing(n, to);
    if k == t then from
    else if from < t && from <= k < t then k + 1
    else if t < from && t < k <= from then k - 1
    else k
  }

  /** Element-wise description of a move: the dragged element lands at the
      target and the elements in between shift one place towards the gap. */
  lemma MoveAt<T>(s: seq<T>, from: nat, to: nat, k: nat)
    requires from < |s| && k < |s|
    ensures Move(s, from, to)[k] == s[MoveSource(|s|, from, to, k)]
  {
  }

  /** Removing index i of a non-empty list, seen from its tail. */
  lemma RemoveSliceCons<T>(s: seq<T>, i: nat)
    requires 0 < i < |s|
    ensures s[..i] + s[i + 1..] == [s[0]] + (s[1..][..i - 1] + s[1..][i..])
  {
    assert s[..i] == [s[0]] + s[1..][..i - 1];
    assert s[i + 1..] == s[1..][i..];
  }

  /** No element occurs twice. */
  ghost predicate Distinct<T>(s: seq<T>) {
    forall i, j :: 0 <= i < |s| && 0 <= j < |s| && s[i] == s[j] ==> i == j
  }

  /** A move neither duplicates nor loses an element. */
  lemma MoveDistinct<T>(s: seq<T>, from: nat, to: nat)
    requires from < |s| && Distinct(s)
    ensures Distinct(Move(s, from, to))
  {
    var m := Move(s, from, to);
    forall i, j | 0 <= i < |m| && 0 <= j < |m| && m[i] == m[j] ensures i == j {
      MoveAt(s, from, to, i);
      MoveAt(s, from, to, j);
    }
  }

  /** Removing one element keeps the rest distinct. */
  lemma RemoveAtDistinct<T>(s: seq<T>, i: nat)
    requires i < |s| && Distinct(s)
    ensures Distinct(RemoveAt(s, i))
  {
    var r := RemoveAt(s, i);
    forall a, b | 0 <= a < |r| && 0 <= b < |r| && r[a] == r[b] ensures a == b {
      var a' := if a < i then a else a + 1;
      var b' := if b < i then b else b + 1;
      assert s[a'] == s[b'];
    }
  }
}
