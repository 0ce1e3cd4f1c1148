/** Text as words separated by white space. */
module Words {
  import opened Sequences
  import opened Text

  predicate NoSpace(s: string) {
    forall i | 0 <= i < |s| :: !IsSpace(s[i])
  }

  predicate AllSpace(s: string) {
    forall i | 0 <= i < |s| :: IsSpace(s[i])
  }

  /** A word: not empty, without white space. */
  predicate IsWord(s: string) {
    s != "" && NoSpace(s)
  }

  /** How many characters at the start of `s` are white space, or are not. */
  function Spaces(s: string): (n: nat)
    ensures n <= |s| && AllSpace(s[..n]) && (n < |s| ==> !IsSpace(s[n]))
  {
    if s == "" || !IsSpace(s[0]) then 0
    else
      var n := Spaces(s[1..]);
      assert forall i | 0 < i <= n :: s[i] == s[1..][..n][i - 1];
      1 + n
  }

  function Letters(s: string): (n: nat)
    ensures n <= |s| && NoSpace(s[..n]) && (n < |s| ==> IsSpace(s[n]))
  {
    if s == "" || IsSpace(s[0]) then 0
    else
      var n := Letters(s[1..]);
      assert forall i | 0 < i <= n :: s[i] == s[1..][..n][i - 1];
      1 + n
  }

  function Trimmed(s: string): string { s[Spaces(s)..] }

  lemma SpacesIs(s: string, n: nat)
    requires n <= |s| && AllSpace(s[..n]) && (n < |s| ==> !IsSpace(s[n]))
    ensures Spaces(s) == n
  {
    var k := Spaces(s);
    assert forall i | 0 <= i < n :: s[i] == s[..n][i];
    assert forall i | 0 <= i < k :: s[i] == s[..k][i];
  }

  lemma LettersIs(s: string, n: nat)
    requires n <= |s| && NoSpace(s[..n]) && (n < |s| ==> IsSpace(s[n]))
    ensures Letters(s) == n
  {
    var k := Letters(s);
    assert forall i | 0 <= i < n :: s[i] == s[..n][i];
    assert forall i | 0 <= i < k :: s[i] == s[..k][i];
  }

  /** The words of `s`, in order. */
  function WordsOf(s: string): seq<string>
    decreases |s|
  {
    var t := Trimmed(s);
    if t == "" then [] else [t[..Letters(t)]] + WordsOf(t[Letters(t)..])
  }

  lemma {:induction false} WordsAreWords(s: string)
    ensures forall i | 0 <= i < |WordsOf(s)| :: IsWord(WordsOf(s)[i])
    decreases |s|
  {
    var t := Trimmed(s);
    if t != "" {
      WordsAreWords(t[Letters(t)..]);
    }
  }

  lemma WordFirst(w: string, rest: string)
    requires IsWord(w) && (rest == "" || IsSpace(rest[0]))
    ensures WordsOf(w + rest) == [w] + WordsOf(rest)
  {
    var s := w + rest;
    SpacesIs(s, 0);
    assert Trimmed(s) == s;
    assert s[..|w|] == w && s[|w|..] == rest;
    LettersIs(s, |w|);
  }

  lemma SpaceFirst(c: char, rest: string)
    requires IsSpace(c)
    ensures WordsOf([c] + rest) == WordsOf(rest)
  {
    var s := [c] + rest;
    assert s[1..] == rest;
    assert Spaces(s) == 1 + Spaces(rest);
    assert Trimmed(s) == Trimmed(rest);
  }

  /** A word in a line, with the space before it. */
  function Cell(s: string): string { " " + s }

  lemma CellFirst(w: string, rest: string)
    requires IsWord(w) && (rest == "" || IsSpace(rest[0]))
    ensures WordsOf(Cell(w) + rest) == [w] + WordsOf(rest)
  {
    CellIs(w, rest);
    WordFirst(w, rest);
    SpaceFirst(' ', w + rest);
  }

  lemma CellIs(w: string, rest: string)
    ensures Cell(w) + rest == [' '] + (w + rest)
  {
  }

  predicate AllWords(ws: seq<string>) {
    forall i | 0 <= i < |ws| :: IsWord(ws[i])
  }

  /** Words joined by single spaces are read back, also when there are none. */
  lemma {:induction false} JoinedWords(ws: seq<string>, rest: string)
    requires AllWords(ws) && (rest == "" || IsSpace(rest[0]))
    ensures WordsOf(Cell(Join(ws, " ")) + rest) == ws + WordsOf(rest)
  {
    if ws == [] {
      CellIs("", rest);
      SpaceFirst(' ', rest);
      assert "" + rest == rest;
    } else {
      FirstOfList(ws);
      if ws[1..] == [] {
        CellFirst(ws[0], rest);
      } else {
        JoinedWords(ws[1..], rest);
        CellStep(ws[0], Join(ws[1..], " "), rest, ws[1..], WordsOf(rest));
      }
    }
  }

  lemma CellStep(w: string, j: string, rest: string, ws: seq<string>, more: seq<string>)
    requires IsWord(w)
    requires WordsOf(Cell(j) + rest) == ws + more
    ensures WordsOf(Cell(w + " " + j) + rest) == ([w] + ws) + more
  {
    CellFirst(w, Cell(j) + rest);
    CellsRegroup(w, j, rest);
    PrependWords(w, ws, more);
  }

  lemma FirstOfList(ws: seq<string>)
    requires ws != [] && AllWords(ws)
    ensures IsWord(ws[0]) && AllWords(ws[1..]) && ws == [ws[0]] + ws[1..]
    ensures ws[1..] == [] ==> ws == [ws[0]]
  {
  }

  lemma CellsRegroup(w: string, j: string, rest: string)
    ensures Cell(w + " " + j) + rest == Cell(w) + (Cell(j) + rest)
  {
  }

  lemma PrependWords<T>(w: T, ws: seq<T>, more: seq<T>)
    ensures [w] + (ws + more) == ([w] + ws) + more
  {
  }

  lemma NoSpaceConcat(a: string, b: string)
    ensures NoSpace(a) && NoSpace(b) <==> NoSpace(a + b)
  {
    assert forall i | 0 <= i < |a| :: a[i] == (a + b)[i];
    assert forall i | 0 <= i < |b| :: b[i] == (a + b)[|a| + i];
  }

  lemma {:induction false} NoSpaceJoin(pieces: seq<string>, sep: string)
    requires NoSpace(sep) && forall i | 0 <= i < |pieces| :: NoSpace(pieces[i])
    ensures NoSpace(Join(pieces, sep))
  {
    if |pieces| > 1 {
      NoSpaceJoin(pieces[1..], sep);
      NoSpaceConcat(pieces[0], sep);
      NoSpaceConcat(pieces[0] + sep, Join(pieces[1..], sep));
    }
  }
}
