/** The context file: written by the core from the CONTEXT attribute of a VM, read by the virtual router. */
module Context {
  import opened Sequences
  import opened Separators
  import opened Text
  import opened Attributes

  // ---------------------------------------------------------------------------------------------
  // The writer
  // ---------------------------------------------------------------------------------------------

  const HEADER := "# Context variables generated by OpenNebula"

  /** One line, without its end. */
  function Line(e: Entry): string {
    e.name + "=\"" + e.value + "\""
  }

  function Body(es: seq<Entry>): string {
    if es == [] then "" else Line(es[0]) + ("\n" + Body(es[1..]))
  }

  function Written(es: seq<Entry>): string {
    HEADER + ("\n" + Body(es))
  }

  /** `es` is the contents of the CONTEXT attribute in iteration order. */
  method GenerateContext(es: seq<Entry>) returns (file: string)
    ensures file == Written(es)
  {
    file := HEADER + "\n";
    for i := 0 to |es|
      invariant file + Body(es[i..]) == Written(es)
    {
      assert es[i..][1..] == es[i + 1..];
      Regroup(file, es[i].name, es[i].value, Body(es[i + 1..]));
      file := file + es[i].name + "=\"" + es[i].value + "\"" + "\n";
    }
    assert file + "" == file;
  }

  lemma Regroup(file: string, name: string, value: string, rest: string)
    ensures file + (name + "=\"" + value + "\"" + ("\n" + rest)) == (file + name + "=\"" + value + "\"" + "\n") + rest
  {
  }

  // ---------------------------------------------------------------------------------------------
  // The reader
  // ---------------------------------------------------------------------------------------------

  /** The lines of a text, without their ends. */
  function LinesOf(s: string): seq<string>
    decreases |s|
  {
    if s == "" then []
    else
      match Find("\n", s)
      case None => [s]
      case Some(i) => [s[..i]] + LinesOf(s[i + 1..])
  }

  /** A match of /^(.*?)="(.*)"$/ on a line, with a key of length `k`. */
  predicate Matches(line: string, k: nat) {
    OccursAt("=\"", line, k) && k + 3 <= |line| && line[|line| - 1] == '"'
  }

  /** The key and value of a line: a comment has none, and the lazy key is the shortest for which the rest matches. */
  function ParseLine(line: string): Option<Entry> {
    if line != "" && line[0] == '#' then None
    else
      match Find("=\"", line)
      case None => None
      case Some(k) =>
        if Matches(line, k) then Some(Entry(Lower(line[..k]), line[k + 2..|line| - 1])) else None
  }

  /** Looking at the first `="` only is looking for the shortest key. */
  lemma ParseIsLazyMatch(line: string)
    requires line == "" || line[0] != '#'
    ensures ParseLine(line).None? <==> forall k :: !Matches(line, k)
    ensures ParseLine(line).Some? ==>
              exists k: nat :: Matches(line, k) && (forall j | 0 <= j < k :: !Matches(line, j))
                            && ParseLine(line).value == Entry(Lower(line[..k]), line[k + 2..|line| - 1])
  {
    match Find("=\"", line)
    case None =>
    case Some(k) =>
      if j :| Matches(line, j) {
        assert k <= j;
        assert Matches(line, k);
      }
  }

  function Put(context: map<string, string>, line: string): map<string, string> {
    match ParseLine(line)
    case None => context
    case Some(e) => context[e.name := e.value]
  }

  /** The lines in order; a later line for a key wins. */
  function ReadLines(context: map<string, string>, lines: seq<string>): map<string, string> {
    if lines == [] then context else Put(ReadLines(context, lines[..|lines| - 1]), lines[|lines| - 1])
  }

  function Read(text: string): map<string, string> {
    ReadLines(map[], LinesOf(text))
  }

  /** The first line of a text, and what follows it. */
  method TakeLine(s: string) returns (line: string, rest: string)
    requires s != ""
    ensures LinesOf(s) == [line] + LinesOf(rest) && |rest| < |s|
  {
    match Find("\n", s)
    case None => line, rest := s, "";
    case Some(i) => line, rest := s[..i], s[i + 1..];
  }

  method ReadContext(text: string) returns (context: map<string, string>)
    ensures context == Read(text)
  {
    context := map[];
    var rest := text;
    ghost var done: seq<string> := [];
    while rest != ""
      invariant LinesOf(text) == done + LinesOf(rest)
      invariant context == ReadLines(map[], done)
      decreases |rest|
    {
      ghost var before := rest;
      var line;
      line, rest := TakeLine(rest);
      LineDone(done, before, line, rest);
      match ParseLine(line) {
        case None =>
        case Some(e) =>
          context := context[e.name := e.value];
      }
      done := done + [line];
    }
    assert done + [] == done;
  }

  lemma LineDone(done: seq<string>, s: string, line: string, rest: string)
    requires s != "" && LinesOf(s) == [line] + LinesOf(rest)
    ensures done + LinesOf(s) == (done + [line]) + LinesOf(rest)
    ensures ReadLines(map[], done + [line]) == Put(ReadLines(map[], done), line)
  {
    assert (done + [line])[..|done|] == done;
  }

  // ---------------------------------------------------------------------------------------------
  // Reading what was written
  // ---------------------------------------------------------------------------------------------

  /** What the file format can carry. */
  ghost predicate Writable(e: Entry) {
    && '\n' !in e.name && '\n' !in e.value
    && !Occurs("=\"", e.name)
    && (e.name == "" || e.name[0] != '#')
  }

  lemma KeyIsClean(name: string)
    ensures Clean(name, "=\"") <==> !Occurs("=\"", name)
  {
    CleanIff(name, "=\"");
    assert "=\""[1..] == "\"" && "=\""[..1] == "=";
  }

  lemma LineParses(e: Entry)
    requires Writable(e)
    ensures ParseLine(Line(e)) == Some(Entry(Lower(e.name), e.value))
  {
    var s, k := Line(e), |e.name|;
    KeyIsClean(e.name);
    CleanFound(e.name, "=\"", e.value + "\"");
    assert s == e.name + "=\"" + (e.value + "\"");
    assert s[..k] == e.name && s[k + 2..|s| - 1] == e.value;
    assert s[0] == if e.name == "" then '=' else e.name[0];
  }

  lemma LineSplits(line: string, rest: string)
    requires '\n' !in line
    ensures LinesOf(line + ("\n" + rest)) == [line] + LinesOf(rest)
  {
    var s := line + ("\n" + rest);
    assert s[|line|..|line| + 1] == "\n";
    assert OccursAt("\n", s, |line|);
    forall j | 0 <= j < |line|
      ensures !OccursAt("\n", s, j)
    {
      assert s[j..j + 1][0] == line[j];
    }
    FindIs("\n", s, |line|);
    assert s[..|line|] == line && s[|line| + 1..] == rest;
  }

  function TextLines(es: seq<Entry>): seq<string> {
    if es == [] then [] else [Line(es[0])] + TextLines(es[1..])
  }

  ghost predicate AllWritable(es: seq<Entry>) {
    forall i | 0 <= i < |es| :: Writable(es[i])
  }

  lemma {:induction false} BodySplits(es: seq<Entry>)
    requires AllWritable(es)
    ensures LinesOf(Body(es)) == TextLines(es)
  {
    if es != [] {
      BodySplits(es[1..]);
      LineSplits(Line(es[0]), Body(es[1..]));
    }
  }

  /** Entries as the router keeps them: the key in lower case, the last value of a key. */
  function Kept(es: seq<Entry>): map<string, string> {
    if es == [] then map[]
    else Kept(es[..|es| - 1])[Lower(es[|es| - 1].name) := es[|es| - 1].value]
  }

  lemma {:induction false} TextLinesSnoc(es: seq<Entry>, e: Entry)
    ensures TextLines(es + [e]) == TextLines(es) + [Line(e)]
  {
    if es == [] {
      assert [e][1..] == [];
    } else {
      TextLinesSnoc(es[1..], e);
      assert (es + [e])[1..] == es[1..] + [e];
    }
  }

  lemma {:induction false} LinesRead(es: seq<Entry>)
    requires AllWritable(es)
    ensures ReadLines(map[], TextLines(es)) == Kept(es)
  {
    if es != [] {
      var n := |es| - 1;
      LinesRead(es[..n]);
      LineParses(es[n]);
      TextLinesSnoc(es[..n], es[n]);
      assert es == es[..n] + [es[n]];
      var ls := TextLines(es[..n]);
      assert (ls + [Line(es[n])])[..|ls|] == ls;
    }
  }

  lemma {:induction false} CommentFirst(line: string, lines: seq<string>)
    requires line != "" && line[0] == '#'
    ensures ReadLines(map[], [line] + lines) == ReadLines(map[], lines)
  {
    var all := [line] + lines;
    if lines == [] {
      assert all == [line] && [line][..0] == [];
    } else {
      var n := |lines| - 1;
      CommentFirst(line, lines[..n]);
      assert all[..n + 1] == [line] + lines[..n];
    }
  }

  /** Whatever the text, a key that was read has no line end and no `="`, does not start with "#", and no value has
      a line end. */
  ghost predicate Readable(m: map<string, string>) {
    forall k | k in m :: Writable(Entry(k, m[k]))
  }

  lemma LowerKeeps(s: string)
    ensures '\n' in s <==> '\n' in Lower(s)
    ensures Occurs("=\"", s) <==> Occurs("=\"", Lower(s))
    ensures s != "" ==> (s[0] == '#' <==> Lower(s)[0] == '#')
  {
    var l := Lower(s);
    assert forall i | 0 <= i < |s| :: (s[i] == '\n' <==> l[i] == '\n') && (s[i] == '=' <==> l[i] == '=') && (s[i] == '"' <==> l[i] == '"');
    forall i | 0 <= i && i + 2 <= |s|
      ensures OccursAt("=\"", s, i) <==> OccursAt("=\"", l, i)
    {
      assert s[i..i + 2] == [s[i], s[i + 1]] && l[i..i + 2] == [l[i], l[i + 1]];
    }
    assert '\n' in s ==> exists i :: 0 <= i < |s| && s[i] == '\n' == l[i];
  }

  lemma ParsedIsWritable(line: string)
    requires '\n' !in line
    ensures ParseLine(line).Some? ==> Writable(ParseLine(line).value)
  {
    if ParseLine(line).Some? {
      var k := Find("=\"", line).value;
      var key := line[..k];
      LowerKeeps(key);
      if j :| OccursAt("=\"", key, j) {
        assert line[j..j + 2] == key[j..j + 2];
        assert OccursAt("=\"", line, j);
      }
    }
  }

  lemma {:induction false} LinesHaveNoEnd(s: string)
    ensures forall i | 0 <= i < |LinesOf(s)| :: '\n' !in LinesOf(s)[i]
    decreases |s|
  {
    if s != "" {
      match Find("\n", s)
      case None =>
        assert forall i | 0 <= i < |s| && s[i] == '\n' :: OccursAt("\n", s, i);
      case Some(k) =>
        LinesHaveNoEnd(s[k + 1..]);
        assert forall i | 0 <= i < k && s[i] == '\n' :: OccursAt("\n", s, i);
    }
  }

  lemma {:induction false} ReadIsReadable(lines: seq<string>)
    requires forall i | 0 <= i < |lines| :: '\n' !in lines[i]
    ensures Readable(ReadLines(map[], lines))
  {
    if lines != [] {
      ReadIsReadable(lines[..|lines| - 1]);
      ParsedIsWritable(lines[|lines| - 1]);
    }
  }

  ghost predicate DistinctKeys(es: seq<Entry>) {
    forall i, j | 0 <= i < j < |es| :: Lower(es[i].name) != Lower(es[j].name)
  }

  lemma {:induction false} KeptAt(es: seq<Entry>)
    requires DistinctKeys(es)
    ensures forall i | 0 <= i < |es| :: Lower(es[i].name) in Kept(es) && Kept(es)[Lower(es[i].name)] == es[i].value
  {
    if es != [] {
      KeptAt(es[..|es| - 1]);
    }
  }

  lemma WritableLower(e: Entry)
    ensures Writable(Entry(Lower(e.name), e.value)) <==> Writable(e)
  {
    LowerKeeps(e.name);
  }

  /** A context is read back exactly, keys in lower case and the last value of a key, whenever every entry is writable:
      no line ends, no `="` in a key, no key starting with "#". Quotes and `="` in values do no harm. When the keys stay
      apart in lower case, only then. */
  lemma ContextRoundTrip(es: seq<Entry>)
    ensures AllWritable(es) ==> Read(Written(es)) == Kept(es)
    ensures DistinctKeys(es) && Read(Written(es)) == Kept(es) ==> AllWritable(es)
  {
    if AllWritable(es) {
      BodySplits(es);
      LineSplits(HEADER, Body(es));
      CommentFirst(HEADER, TextLines(es));
      LinesRead(es);
    } else if DistinctKeys(es) {
      LinesHaveNoEnd(Written(es));
      ReadIsReadable(LinesOf(Written(es)));
      KeptAt(es);
      var i :| 0 <= i < |es| && !Writable(es[i]);
      WritableLower(es[i]);
    }
  }

  // ---------------------------------------------------------------------------------------------
  // Reading any text
  // ---------------------------------------------------------------------------------------------

  /** Number `i` is the last of the lines with the key. */
  ghost predicate LastWith(lines: seq<string>, key: string, i: int) {
    0 <= i < |lines| && Gives(lines[i], key) && forall j | i < j < |lines| :: !Gives(lines[j], key)
  }

  /** Of any text, a key is read exactly when some line gives it, with the value of the last such line. */
  lemma {:induction false} LinesReadLast(lines: seq<string>, key: string)
    ensures key in ReadLines(map[], lines) <==> exists i :: LastWith(lines, key, i)
    ensures forall i | LastWith(lines, key, i) :: key in ReadLines(map[], lines)
                                               && ReadLines(map[], lines)[key] == ParseLine(lines[i]).value.value
  {
    if lines != [] {
      var n := |lines| - 1;
      LinesReadLast(lines[..n], key);
      LastWithSnoc(lines[..n], lines[n], key);
      assert lines == lines[..n] + [lines[n]];
      if Gives(lines[n], key) {
        assert LastWith(lines, key, n);
      }
    }
  }

  /** The line gives the key a value. */
  predicate Gives(line: string, key: string) {
    ParseLine(line).Some? && ParseLine(line).value.name == key
  }

  lemma LastWithSnoc(before: seq<string>, line: string, key: string)
    ensures Gives(line, key) ==> forall i :: LastWith(before + [line], key, i) <==> i == |before|
    ensures !Gives(line, key) ==> forall i :: LastWith(before + [line], key, i) <==> LastWith(before, key, i)
  {
    var lines := before + [line];
    assert lines[|before|] == line && forall j | 0 <= j < |before| :: lines[j] == before[j];
  }

  /** Reading any text, given its lines. */
  lemma ReadIsLast(text: string, lines: seq<string>, key: string)
    requires lines == LinesOf(text)
    ensures key in Read(text) <==> exists i :: LastWith(lines, key, i)
    ensures forall i | LastWith(lines, key, i) :: key in Read(text) && Read(text)[key] == ParseLine(lines[i]).value.value
  {
    LinesReadLast(lines, key);
  }

  /** A comment gives nothing, and neither does a line that does not end in a quote. */
  lemma NothingFrom(line: string)
    ensures line != "" && line[0] == '#' ==> ParseLine(line) == None
    ensures line == "" || line[|line| - 1] != '"' ==> ParseLine(line) == None
  {
    match Find("=\"", line)
    case None =>
    case Some(k) => assert OccursAt("=\"", line, k);
  }

  /** The file starts with a comment, and then has one line for every writable variable. */
  lemma WrittenLines(es: seq<Entry>)
    requires AllWritable(es)
    ensures LinesOf(Written(es)) == ["# Context variables generated by OpenNebula"] + TextLines(es)
    ensures forall i | 0 <= i < |es| :: |TextLines(es)| == |es| && TextLines(es)[i] == es[i].name + "=\"" + es[i].value + "\""
  {
    WrittenSplits(es);
    TextLinesAre(es);
  }

  lemma WrittenSplits(es: seq<Entry>)
    requires AllWritable(es)
    ensures LinesOf(Written(es)) == [HEADER] + TextLines(es)
  {
    BodySplits(es);
    LineSplits(HEADER, Body(es));
  }

  lemma {:induction false} TextLinesAre(es: seq<Entry>)
    ensures |TextLines(es)| == |es| && forall i | 0 <= i < |es| :: TextLines(es)[i] == Line(es[i])
  {
    if es != [] {
      TextLinesAre(es[1..]);
    }
  }
}
