/** Splitting at a separator: when text written with a separator can be split back, and why a separator that
    overlaps itself needs care. */
module Separators {
  import opened Sequences

  /** The pieces between the occurrences of `sep`, found from the left; none of them contains it. */
  function Split(s: string, sep: string): (r: seq<string>)
    requires sep != ""
    ensures r != [] && AllWithout(r, sep)
    decreases |s|
  {
    match Find(sep, s)
    case None => [s]
    case Some(i) =>
      BeforeSeparator(s, sep, i);
      [s[..i]] + Split(s[i + |sep|..], sep)
  }

  ghost predicate AllWithout(pieces: seq<string>, sep: string) {
    forall i | 0 <= i < |pieces| :: !Occurs(sep, pieces[i])
  }

  lemma OccursInPrefix(s: string, i: nat, pat: string, j: nat)
    requires i <= |s| && OccursAt(pat, s[..i], j)
    ensures OccursAt(pat, s, j)
  {
    assert s[..i][j..j + |pat|] == s[j..j + |pat|];
  }

  lemma NoneBefore(s: string, sep: string, i: nat)
    requires sep != "" && i <= |s| && forall j | 0 <= j < i :: !OccursAt(sep, s, j)
    ensures !Occurs(sep, s[..i])
  {
    if j :| OccursAt(sep, s[..i], j) {
      OccursInPrefix(s, i, sep, j);
    }
  }

  /** There is no separator before the first one. */
  lemma BeforeSeparator(s: string, sep: string, i: nat)
    requires sep != "" && Find(sep, s) == Some(i)
    ensures i + |sep| <= |s| && !Occurs(sep, s[..i])
  {
    var found := Find(sep, s);
    assert OccursAt(sep, s, found.value);
    NoneBefore(s, sep, i);
  }

  /** Followed by the separator, `s` ends where the first separator begins. */
  ghost predicate Clean(s: string, sep: string) {
    Find(sep, s + sep) == Some(|s|)
  }

  /** The last `r` characters of the separator are also its first, and `s` ends with the rest of it. */
  ghost predicate Overlaps(s: string, sep: string, r: nat) {
    && 0 < r < |sep| && r <= |s|
    && sep[r..] == sep[..|sep| - r]
    && s[|s| - r..] == sep[..r]
  }

  /** A piece is clean exactly when it does not contain the separator and does not end in a beginning of it that
      the separator itself completes. */
  lemma CleanIff(s: string, sep: string)
    requires sep != ""
    ensures Clean(s, sep) <==> !Occurs(sep, s) && forall r :: !Overlaps(s, sep, r)
  {
    var t := s + sep;
    assert OccursAt(sep, t, |s|);
    if Occurs(sep, s) {
      var i :| OccursAt(sep, s, i);
      assert t[i..i + |sep|] == s[i..i + |sep|];
      assert OccursAt(sep, t, i);
    } else if r :| Overlaps(s, sep, r) {
      OverlapOccurs(s, sep, r);
    } else {
      forall j | 0 <= j < |s|
        ensures !OccursAt(sep, t, j)
      {
        if OccursAt(sep, t, j) {
          if j + |sep| <= |s| {
            OccursBefore(s, sep, j);
          } else {
            OccursOverlap(s, sep, j);
          }
        }
      }
      FindIs(sep, t, |s|);
    }
  }

  lemma OccursBefore(s: string, sep: string, j: nat)
    requires j + |sep| <= |s| && OccursAt(sep, s + sep, j)
    ensures OccursAt(sep, s, j)
  {
    assert (s + sep)[j..j + |sep|] == s[j..j + |sep|];
  }

  lemma OverlapOccurs(s: string, sep: string, r: nat)
    requires Overlaps(s, sep, r)
    ensures OccursAt(sep, s + sep, |s| - r)
  {
    var t, i := s + sep, |s| - r;
    assert t[i..i + |sep|] == s[i..] + sep[..|sep| - r];
    assert sep == sep[..r] + sep[r..];
  }

  lemma OccursOverlap(s: string, sep: string, j: nat)
    requires j < |s| < j + |sep|
    requires OccursAt(sep, s + sep, j)
    ensures Overlaps(s, sep, |s| - j)
  {
    var t, r := s + sep, |s| - j;
    assert t[j..j + |sep|][..r] == s[j..];
    assert t[j..j + |sep|][r..] == sep[..|sep| - r];
  }

  /** A one-character separator only has to be absent. */
  lemma CleanOfChar(s: string, c: char)
    ensures Occurs([c], s) <==> c in s
    ensures Clean(s, [c]) <==> c !in s
  {
    if i :| OccursAt([c], s, i) {
      assert s[i..i + 1][0] == s[i];
    }
    if i :| 0 <= i < |s| && s[i] == c {
      assert s[i..i + 1] == [c];
      assert OccursAt([c], s, i);
    }
    CleanIff(s, [c]);
  }

  /** What is found in a clean piece and its separator is found whatever follows. */
  lemma CleanFound(s: string, sep: string, rest: string)
    requires sep != ""
    ensures Clean(s, sep) <==> Find(sep, s + sep + rest) == Some(|s|)
  {
    var t, u := s + sep, s + sep + rest;
    assert OccursAt(sep, t, |s|);
    assert u[|s|..|s| + |sep|] == sep;
    forall j | 0 <= j < |s|
      ensures OccursAt(sep, t, j) <==> OccursAt(sep, u, j)
    {
      assert t[j..j + |sep|] == u[j..j + |sep|];
    }
    if Clean(s, sep) {
      FindIs(sep, u, |s|);
    }
    if Find(sep, u) == Some(|s|) {
      FindIs(sep, t, |s|);
    }
  }

  /** Every piece but the last is clean, and the last does not contain the separator. */
  ghost predicate Separable(pieces: seq<string>, sep: string)
    requires pieces != []
  {
    && (forall i | 0 <= i < |pieces| - 1 :: Clean(pieces[i], sep))
    && !Occurs(sep, pieces[|pieces| - 1])
  }

  /** Splitting undoes joining exactly when the pieces are separable. */
  lemma {:induction false} SplitJoin(pieces: seq<string>, sep: string)
    requires sep != "" && pieces != []
    ensures Split(Join(pieces, sep), sep) == pieces <==> Separable(pieces, sep)
  {
    var p, rest := pieces[0], pieces[1..];
    if |pieces| == 1 {
      SplitOne(p, sep);
      assert pieces == [p];
    } else {
      var tail := Join(rest, sep);
      SplitJoin(rest, sep);
      SplitFirst(p, sep, tail);
      SeparableTail(pieces, sep);
      assert pieces == [p] + rest;
      assert Clean(p, sep) ==> ([p] + Split(tail, sep))[1..] == Split(tail, sep);
    }
  }

  lemma SplitOne(p: string, sep: string)
    requires sep != ""
    ensures Split(p, sep) == [p] <==> !Occurs(sep, p)
  {
    if Find(sep, p).Some? {
      assert OccursAt(sep, p, Find(sep, p).value);
      assert |Split(p, sep)| >= 2;
    }
  }

  lemma SplitFirst(p: string, sep: string, tail: string)
    requires sep != ""
    ensures Clean(p, sep) ==> Split(p + sep + tail, sep) == [p] + Split(tail, sep)
    ensures !Clean(p, sep) ==> Split(p + sep + tail, sep)[0] != p
  {
    var s := p + sep + tail;
    CleanFound(p, sep, tail);
    assert s[|p|..|p| + |sep|] == sep;
    assert OccursAt(sep, s, |p|);
    if Clean(p, sep) {
      assert s[..|p|] == p && s[|p| + |sep|..] == tail;
    } else {
      assert |Split(s, sep)[0]| == Find(sep, s).value;
    }
  }

  lemma SeparableTail(pieces: seq<string>, sep: string)
    requires |pieces| > 1
    ensures Separable(pieces, sep) <==> Clean(pieces[0], sep) && Separable(pieces[1..], sep)
  {
    var rest := pieces[1..];
    assert forall i | 0 < i < |pieces| :: pieces[i] == rest[i - 1];
    if Clean(pieces[0], sep) && Separable(rest, sep) {
      forall i | 0 <= i < |pieces| - 1
        ensures Clean(pieces[i], sep)
      {
        if i > 0 {
          assert Clean(rest[i - 1], sep);
        }
      }
    }
  }
}
