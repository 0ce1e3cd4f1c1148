/** Facts about sequences that every other module leans on: flattening a list of chunks and finding
    the first occurrence of a pattern. */
module Sequences {

  datatype Option<+T> = None | Some(value: T)

  /** The chunks of `chunks` glued together in order. */
  function Concat<T>(chunks: seq<seq<T>>): seq<T> {
    if chunks == [] then [] else chunks[0] + Concat(chunks[1..])
  }

  lemma {:induction false} ConcatAppend<T>(a: seq<seq<T>>, b: seq<seq<T>>)
    ensures Concat(a + b) == Concat(a) + Concat(b)
  {
    if a == [] {
      assert a + b == b;
    } else {
      var h, t := a[0], Concat(a[1..]);
      ConcatAppend(a[1..], b);
      assert (a + b)[0] == h && (a + b)[1..] == a[1..] + b;
      assert h + (t + Concat(b)) == (h + t) + Concat(b);
    }
  }

  lemma ConcatOne<T>(c: seq<T>)
    ensures Concat([c]) == c
  {
    assert [c][1..] == [];
  }

  lemma ConcatSnoc<T>(a: seq<seq<T>>, c: seq<T>)
    ensures Concat(a + [c]) == Concat(a) + c
  {
    ConcatAppend(a, [c]);
    ConcatOne(c);
  }

  /** `pat` stands in `s` at position `i`. */
  predicate OccursAt<T(==)>(pat: seq<T>, s: seq<T>, i: int) {
    0 <= i && i + |pat| <= |s| && s[i..i + |pat|] == pat
  }

  /** `pat` stands somewhere in `s`. */
  ghost predicate Occurs<T>(pat: seq<T>, s: seq<T>) {
    exists i :: OccursAt(pat, s, i)
  }

  /** The position of the first occurrence of `pat` in `s`, as `std::string::find` and Python's
      `find` report it. */
  function Find<T(==)>(pat: seq<T>, s: seq<T>): (r: Option<nat>)
    ensures r.Some? ==> OccursAt(pat, s, r.value) && forall j | 0 <= j < r.value :: !OccursAt(pat, s, j)
    ensures r.None? ==> !Occurs(pat, s)
  {
    if OccursAt(pat, s, 0) then
      Some(0)
    else if s == [] then
      None
    else
      OccursInTail(pat, s);
      match Find(pat, s[1..])
      case None => None
      case Some(i) => Some(i + 1)
  }

  lemma OccursInTail<T>(pat: seq<T>, s: seq<T>)
    requires s != []
    ensures forall i :: i > 0 ==> (OccursAt(pat, s, i) <==> OccursAt(pat, s[1..], i - 1))
  {
    forall i | i > 0
      ensures OccursAt(pat, s, i) <==> OccursAt(pat, s[1..], i - 1)
    {
      if i + |pat| <= |s| {
        assert s[1..][i - 1..i - 1 + |pat|] == s[i..i + |pat|];
      }
    }
  }

  /** What `Find` returns is pinned down by its two promises. */
  lemma FindIs<T>(pat: seq<T>, s: seq<T>, i: nat)
    requires OccursAt(pat, s, i)
    requires forall j | 0 <= j < i :: !OccursAt(pat, s, j)
    ensures Find(pat, s) == Some(i)
  {
    assert Occurs(pat, s);
  }

  /** Glues `pieces` with `sep` between neighbours. */
  function Join<T>(pieces: seq<seq<T>>, sep: seq<T>): seq<T> {
    if pieces == [] then []
    else if |pieces| == 1 then pieces[0]
    else pieces[0] + sep + Join(pieces[1..], sep)
  }
}
