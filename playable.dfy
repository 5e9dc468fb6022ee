/** The ordered list of playable cells and the two edits updatePlayableButtons
    makes to it. A cell "r c" of the source is the pair (r, c) here. */
module Playable {

  type Cell = (int, int)

  /** ArrayList.remove(Object): drop the first occurrence of x, if any. */
  function RemoveFirst(s: seq<Cell>, x: Cell): (t: seq<Cell>)
    ensures |t| == if x in s then |s| - 1 else |s|
    ensures forall e :: e in t ==> e in s
    ensures x !in s ==> t == s
    ensures forall e :: e in s && e != x ==> e in t
  {
    if s == [] then []
    else if s[0] == x then s[1..]
    else [s[0]] + RemoveFirst(s[1..], x)
  }

  /** Removing the first occurrence of x takes out exactly that index. */
  lemma {:induction false} RemoveFirstAt(s: seq<Cell>, x: Cell, i: nat)
    requires i < |s| && s[i] == x
    requires forall j :: 0 <= j < i ==> s[j] != x
    ensures RemoveFirst(s, x) == s[..i] + s[i + 1..]
  {
    if i > 0 {
      RemoveFirstAt(s[1..], x, i - 1);
      assert s[1..][..i - 1] + s[1..][i..] == s[1..i] + s[i + 1..];
      assert [s[0]] + s[1..i] == s[..i];
    }
  }

  /** ArrayList.add(index, x). */
  function InsertAt(s: seq<Cell>, i: int, x: Cell): (t: seq<Cell>)
    requires 0 <= i <= |s|
    ensures |t| == |s| + 1 && t[i] == x
    ensures t[..i] == s[..i] && t[i + 1..] == s[i..]
  {
    s[..i] + [x] + s[i..]
  }

  /** The forward edit: the pressed cell leaves the list, and the cell above
      it, if there is one, joins at the end. */
  function Advance(s: seq<Cell>, r: int, c: int): (t: seq<Cell>)
    ensures forall e :: e in t ==> e in s || (r > 0 && e == (r - 1, c))
    ensures forall e :: e in s && e != (r, c) ==> e in t
    ensures r > 0 ==> (r - 1, c) in t
    ensures r > 0 ==> |t| > 0 && t[|t| - 1] == (r - 1, c)
  {
    var t := RemoveFirst(s, (r, c));
    if r > 0 then t + [(r - 1, c)] else t
  }

  /** The backward edit: the cell goes back in at index i and the cell above
      it, if there is one, leaves the list. */
  function Retract(s: seq<Cell>, r: int, c: int, i: int): (t: seq<Cell>)
    requires 0 <= i <= |s|
    ensures (r, c) in t
    ensures forall e :: e in t ==> e in s || e == (r, c)
    ensures forall e :: e in s && !(r > 0 && e == (r - 1, c)) ==> e in t
    ensures r > 0 && (r - 1, c) in s ==> |t| == |s|
    ensures !(r > 0 && (r - 1, c) in s) ==> |t| == |s| + 1
  {
    var t := InsertAt(s, i, (r, c));
    assert forall e :: e in t <==> e in s || e == (r, c) by {
      assert t == s[..i] + [(r, c)] + s[i..];
      assert s == s[..i] + s[i..];
    }
    if r > 0 then RemoveFirst(t, (r - 1, c)) else t
  }

  /** No two entries share a column: the list holds at most one cell per column. */
  predicate DistinctColumns(s: seq<Cell>) {
    forall j, k :: 0 <= j < k < |s| ==> s[j].1 != s[k].1
  }

  /** Some entry of s is in column c. */
  predicate HasColumn(s: seq<Cell>, c: int) {
    s != [] && (s[0].1 == c || HasColumn(s[1..], c))
  }

  /** HasColumn says exactly that some entry lies in column c. */
  lemma {:induction false} HasColumnEntry(s: seq<Cell>, c: int)
    ensures HasColumn(s, c) <==> exists e :: e in s && e.1 == c
  {
    if s != [] {
      HasColumnEntry(s[1..], c);
      assert forall e :: e in s <==> e == s[0] || e in s[1..];
    }
  }

  /** Undoing the forward edit at the entry's own index restores the list
      exactly, when no other entry is in the same column. */
  lemma {:induction false} AdvanceRetract(s: seq<Cell>, r: int, c: int, i: nat)
    requires i < |s| && s[i] == (r, c)
    requires forall j :: 0 <= j < |s| && j != i ==> s[j].1 != c
    ensures i <= |Advance(s, r, c)|
    ensures Retract(Advance(s, r, c), r, c, i) == s
  {
    RemoveFirstAt(s, (r, c), i);
    var t := s[..i] + s[i + 1..];
    assert InsertAt(t, i, (r, c)) == s by {
      assert t[..i] == s[..i] && t[i..] == s[i + 1..];
      assert s == s[..i] + [s[i]] + s[i + 1..];
    }
    if r > 0 {
      var u := t + [(r - 1, c)];
      assert InsertAt(u, i, (r, c)) == s + [(r - 1, c)] by {
        assert u[..i] == s[..i] && u[i..] == s[i + 1..] + [(r - 1, c)];
        assert s == s[..i] + [s[i]] + s[i + 1..];
      }
      RemoveFirstAt(s + [(r - 1, c)], (r - 1, c), |s|);
      assert (s + [(r - 1, c)])[..|s|] == s;
    }
  }

  /** Dropping entry i keeps one entry per column, and what is left avoids
      the dropped entry's column. */
  lemma DropDistinct(s: seq<Cell>, i: nat)
    requires DistinctColumns(s) && i < |s|
    ensures DistinctColumns(s[..i] + s[i + 1..])
    ensures forall e :: e in s[..i] + s[i + 1..] ==> e in s && e.1 != s[i].1
  {
    var t := s[..i] + s[i + 1..];
    forall j, k | 0 <= j < k < |t|
      ensures t[j].1 != t[k].1
    {
      assert t[j] == s[if j < i then j else j + 1];
      assert t[k] == s[if k < i then k else k + 1];
    }
    forall e | e in t
      ensures e in s && e.1 != s[i].1
    {
      var k :| 0 <= k < |t| && t[k] == e;
      assert t[k] == s[if k < i then k else k + 1];
    }
  }

  /** The forward edit keeps one entry per column. */
  lemma AdvanceDistinct(s: seq<Cell>, r: int, c: int, i: nat)
    requires DistinctColumns(s) && i < |s| && s[i] == (r, c)
    ensures DistinctColumns(Advance(s, r, c))
    ensures forall e :: e in Advance(s, r, c) ==> (e in s && e.1 != c) || (r > 0 && e == (r - 1, c))
  {
    RemoveFirstAt(s, (r, c), i);
    DropDistinct(s, i);
    var t := s[..i] + s[i + 1..];
    if r > 0 {
      var u := t + [(r - 1, c)];
      forall j, k | 0 <= j < k < |u|
        ensures u[j].1 != u[k].1
      {
        assert u[j] == t[j] && u[j] in t;
        if k < |t| {
          assert u[k] == t[k];
        }
      }
      assert forall e :: e in u ==> e in t || e == (r - 1, c);
    }
  }

  /** A list with one entry per column, over columns 0 .. n-1, has at most n
      entries. */
  lemma {:induction false} DistinctColumnsBound(s: seq<Cell>, n: nat)
    requires DistinctColumns(s) && forall e :: e in s ==> 0 <= e.1 < n
    ensures |s| <= n
  {
    if s != [] {
      assert s[0] in s;
      if k :| 0 <= k < |s| && s[k].1 == n - 1 {
        DropDistinct(s, k);
        DistinctColumnsBound(s[..k] + s[k + 1..], n - 1);
      } else {
        forall e | e in s
          ensures e.1 < n - 1
        {
          var k :| 0 <= k < |s| && s[k] == e;
        }
        DistinctColumnsBound(s, n - 1);
      }
    }
  }

  /** The list of a new game: the bottom row, left to right. */
  function InitialPlayable(): (s: seq<Cell>)
    ensures |s| == 7 && forall c :: 0 <= c < 7 ==> s[c] == (5, c)
  {
    seq(7, c => (5, c))
  }
}
