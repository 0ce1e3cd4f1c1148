/** Template attributes: how a name is normalised and what copying does to it, the CDATA text of a single attribute,
    and the one-line text of a vector attribute. */
module Attributes {
  import opened Sequences
  import opened Text
  import opened Separators

  // ---------------------------------------------------------------------------------------------
  // Names
  // ---------------------------------------------------------------------------------------------

  /** Upper case, and "ONE_" in front of a name that starts with no letter or with XML in capitals. */
  function Normalised(a: string): string {
    if (a != "" && !IsAlpha(a[0])) || (|a| >= 3 && a[..3] == "XML") then "ONE_" + Upper(a) else Upper(a)
  }

  /** The name starts with a spelling of XML that is not all capitals. */
  predicate StartsLikeXml(a: string) {
    |a| >= 3 && Upper(a[..3]) == "XML" && a[..3] != "XML"
  }

  lemma UpperTwice(a: string)
    ensures Upper(Upper(a)) == Upper(a)
    ensures |a| >= 3 ==> Upper(a)[..3] == Upper(a[..3])
  {
  }

  lemma PrefixedIsFixed(a: string)
    ensures Normalised("ONE_" + Upper(a)) == "ONE_" + Upper(a)
  {
    var s := "ONE_" + Upper(a);
    UpperTwice(a);
    assert s[0] == 'O' && s[..3][0] == 'O';
    assert Upper(s) == s;
  }

  lemma UpperNormalised(a: string)
    requires a == "" || IsAlpha(a[0])
    ensures Normalised(Upper(a)) == if |a| >= 3 && Upper(a[..3]) == "XML" then "ONE_" + Upper(a) else Upper(a)
  {
    UpperTwice(a);
  }

  lemma NoLetterNoXml(a: string)
    requires a != "" && !IsAlpha(a[0])
    ensures !StartsLikeXml(a)
  {
    assert |a| >= 3 ==> Upper(a[..3])[0] == UpperChar(a[0]);
  }

  /** A copy, which runs the constructor on the stored name again, keeps the name of an attribute exactly when the
      given name did not start with a spelling of XML other than capitals. */
  lemma CopyKeepsName(a: string)
    ensures Normalised(Normalised(a)) == Normalised(a) <==> !StartsLikeXml(a)
  {
    PrefixedIsFixed(a);
    if a != "" && !IsAlpha(a[0]) {
      NoLetterNoXml(a);
    } else {
      UpperNormalised(a);
      assert |"ONE_" + Upper(a)| == |Upper(a)| + 4;
    }
  }

  /** A copy of a copy has the name of the copy. */
  lemma SecondCopyKeepsName(a: string)
    ensures Normalised(Normalised(Normalised(a))) == Normalised(Normalised(a))
  {
    PrefixedIsFixed(a);
    if a == "" || IsAlpha(a[0]) {
      UpperNormalised(a);
    }
  }

  class SingleAttribute {
    var attributeName: string
    var attributeValue: string

    constructor (name: string, value: string)
      ensures attributeName == Normalised(name) && attributeValue == value
    {
      attributeName, attributeValue := Upper(name), value;
      new;
      if (|name| > 0 && !IsAlpha(name[0]))
         || (|name| >= 3 && name[0] == 'X' && name[1] == 'M' && name[2] == 'L')
      {
        attributeName := "ONE_" + attributeName;
      }
    }

    method Clone() returns (copy: SingleAttribute)
      ensures fresh(copy)
      ensures copy.attributeName == Normalised(attributeName) && copy.attributeValue == attributeValue
    {
      copy := new SingleAttribute(attributeName, attributeValue);
    }

    method Replace(value: string)
      modifies this
      ensures attributeValue == value && attributeName == old(attributeName)
    {
      attributeValue := value;
    }

    /** The text is read back as this attribute exactly when its name and value can be told from the markup. */
    function ToXml(): string
      reads this
      ensures ReadElement(ToXml()) == Some((attributeName, attributeValue))
              <==> !Occurs(">", attributeName) && !Occurs(CDATA_END, attributeValue)
    {
      XmlRoundTrip(attributeName, attributeValue);
      XmlText(attributeName, attributeValue)
    }
  }

  // ---------------------------------------------------------------------------------------------
  // CDATA
  // ---------------------------------------------------------------------------------------------

  const CDATA := "<![CDATA["
  const CDATA_END := "]]>"

  function XmlText(name: string, value: string): string {
    "<" + name + ">" + CDATA + value + CDATA_END + "</" + name + ">"
  }

  /** Reading an element with one CDATA section: the name ends at the first ">", the section, by section 2.7 of
      XML 1.0, at the first "]]>", and the end tag repeats the name. */
  function ReadElement(s: string): Option<(string, string)> {
    if !("<" <= s) then None
    else
      match Find(">", s[1..])
      case None => None
      case Some(i) => ReadSection(s[1..][..i], s[1..][i + 1..])
  }

  function ReadSection(name: string, s: string): (r: Option<(string, string)>)
    ensures r.Some? ==> r.value.0 == name
  {
    if !(CDATA <= s) then None
    else
      var body := s[|CDATA|..];
      match Find(CDATA_END, body)
      case None => None
      case Some(j) => if body[j + 3..] == "</" + name + ">" then Some((name, body[..j])) else None
  }

  lemma CdataHasNoOverlap(v: string)
    ensures Clean(v, CDATA_END) <==> !Occurs(CDATA_END, v)
  {
    CleanIff(v, CDATA_END);
    forall r | Overlaps(v, CDATA_END, r)
      ensures false
    {
      LastOfOverlap(v, CDATA_END, r);
    }
  }

  /** A separator that overlaps itself repeats its last character. */
  lemma LastOfOverlap(s: string, sep: string, r: nat)
    requires Overlaps(s, sep, r)
    ensures sep[|sep| - 1] == sep[|sep| - 1 - r]
  {
    assert sep[r..][|sep| - 1 - r] == sep[..|sep| - r][|sep| - 1 - r];
  }

  lemma SectionRoundTrip(name: string, value: string)
    ensures ReadSection(name, CDATA + value + CDATA_END + "</" + name + ">") == Some((name, value))
            <==> !Occurs(CDATA_END, value)
  {
    var close := "</" + name + ">";
    var body := value + CDATA_END + close;
    assert CDATA + value + CDATA_END + "</" + name + ">" == CDATA + body;
    assert body[..|value|] == value && body[|value| + 3..] == close;
    CleanFound(value, CDATA_END, close);
    CdataHasNoOverlap(value);
    SectionReads(name, value, body, close);
  }

  lemma SectionReads(name: string, value: string, body: string, close: string)
    requires close == "</" + name + ">"
    requires |body| >= |value| + 3 && body[..|value|] == value && body[|value| + 3..] == close
    ensures ReadSection(name, CDATA + body) == Some((name, value)) <==> Find(CDATA_END, body) == Some(|value|)
  {
    var s, found := CDATA + body, Find(CDATA_END, body);
    assert s[|CDATA|..] == body && CDATA <= s;
    if found.Some? && found.value != |value| {
      assert |body[..found.value]| != |value|;
    }
  }

  lemma XmlRegroups(name: string, value: string)
    ensures XmlText(name, value) == "<" + (name + ">" + (CDATA + value + CDATA_END + "</" + name + ">"))
  {
  }

  /** Name and value are read back exactly when the name has no ">" and the value no "]]>". In particular a value
      may end in "]" or "]]". */
  lemma XmlRoundTrip(name: string, value: string)
    ensures ReadElement(XmlText(name, value)) == Some((name, value))
            <==> !Occurs(">", name) && !Occurs(CDATA_END, value)
  {
    var s := XmlText(name, value);
    var section := CDATA + value + CDATA_END + "</" + name + ">";
    CleanOfChar(name, '>');
    CleanFound(name, ">", section);
    XmlRegroups(name, value);
    assert s[1..] == name + ">" + section;
    assert s[1..][..|name|] == name && s[1..][|name| + 1..] == section;
    SectionRoundTrip(name, value);
  }

  // ---------------------------------------------------------------------------------------------
  // Vector attributes
  // ---------------------------------------------------------------------------------------------

  datatype Entry = Entry(name: string, value: string)
  {
    function Text(): string { name + "=" + value }
  }

  ghost predicate Distinct(es: seq<Entry>) {
    forall i, j | 0 <= i < j < |es| :: es[i].name != es[j].name
  }

  function MapOf(es: seq<Entry>): map<string, string> {
    if es == [] then map[] else MapOf(es[1..])[es[0].name := es[0].value]
  }

  /** `es` is an order in which iteration can show the contents of `m`; the order of std::map is one of them. */
  ghost predicate Lists(es: seq<Entry>, m: map<string, string>) {
    Distinct(es) && MapOf(es) == m
  }

  /** A piece with no "=" is skipped; a name already there keeps its value. */
  function InsertPiece(m: map<string, string>, piece: string): map<string, string> {
    match Find("=", piece)
    case None => m
    case Some(i) => if piece[..i] in m then m else m[piece[..i] := piece[i + 1..]]
  }

  function InsertAll(m: map<string, string>, pieces: seq<string>): map<string, string>
    decreases |pieces|
  {
    if pieces == [] then m else InsertAll(InsertPiece(m, pieces[0]), pieces[1..])
  }

  function Texts(es: seq<Entry>): (r: seq<string>)
    ensures |r| == |es|
  {
    if es == [] then [] else [es[0].Text()] + Texts(es[1..])
  }

  /** The text of a vector attribute; an empty one has none. */
  function Marshalled(es: seq<Entry>, sep: string): Option<string> {
    if es == [] then None else Some(Join(Texts(es), sep))
  }

  function Unmarshalled(m: map<string, string>, s: string, sep: string): map<string, string>
    requires sep != ""
  {
    InsertAll(m, Split(s, sep))
  }

  class VectorAttribute {
    var attributeValue: map<string, string>

    constructor (value: map<string, string>)
      ensures attributeValue == value
    {
      attributeValue := value;
    }

    /** `es` is the map's contents in iteration order. */
    method Marshall(es: seq<Entry>, sep: string) returns (r: Option<string>)
      requires Lists(es, attributeValue)
      ensures r == Marshalled(es, sep)
    {
      if es == [] {
        return None;
      }
      var os := es[0].Text();
      assert es[..1] == [es[0]];
      for i := 1 to |es|
        invariant os == Join(Texts(es[..i]), sep)
      {
        assert es[..i + 1] == es[..i] + [es[i]];
        TextsSnoc(es[..i], es[i]);
        JoinSnoc(Texts(es[..i]), es[i].Text(), sep);
        os := os + sep + es[i].Text();
      }
      assert es[..|es|] == es;
      return Some(os);
    }

    method Unmarshall(sattr: string, sep: string)
      requires sep != ""
      modifies this
      ensures attributeValue == Unmarshalled(old(attributeValue), sattr, sep)
    {
      var bpos, cont := 0, true;
      ghost var result := Unmarshalled(attributeValue, sattr, sep);
      assert sattr[0..] == sattr;
      while cont
        invariant 0 <= bpos <= |sattr|
        invariant result == if cont then Unmarshalled(attributeValue, sattr[bpos..], sep) else attributeValue
        decreases cont, |sattr| - bpos
      {
        var tmp;
        var rest := sattr[bpos..];
        match Find(sep, rest) {
          case None =>
            tmp := rest;
            cont := false;
            assert Split(rest, sep)[1..] == [];
          case Some(epos) =>
            tmp := rest[..epos];
            bpos := bpos + epos + |sep|;
            assert sattr[bpos..] == rest[epos + |sep|..];
            assert Split(rest, sep)[1..] == Split(sattr[bpos..], sep);
        }
        assert Split(rest, sep)[0] == tmp;
        assert result == InsertAll(InsertPiece(attributeValue, tmp), Split(rest, sep)[1..]);
        attributeValue := InsertPiece(attributeValue, tmp);
      }
    }
  }

  lemma {:induction false} TextsSnoc(es: seq<Entry>, e: Entry)
    ensures Texts(es + [e]) == Texts(es) + [e.Text()]
  {
    if es == [] {
      assert [e][1..] == [];
    } else {
      TextsSnoc(es[1..], e);
      assert (es + [e])[1..] == es[1..] + [e];
    }
  }

  lemma {:induction false} JoinSnoc(pieces: seq<string>, p: string, sep: string)
    requires pieces != []
    ensures Join(pieces + [p], sep) == Join(pieces, sep) + sep + p
  {
    assert (pieces + [p])[1..] == pieces[1..] + [p];
    if |pieces| > 1 {
      JoinSnoc(pieces[1..], p, sep);
      var a, b := pieces[0] + sep, Join(pieces[1..], sep);
      assert a + (b + sep + p) == (a + b) + sep + p;
    }
  }

  lemma PieceOfEntry(m: map<string, string>, e: Entry)
    requires !Occurs("=", e.name) && e.name !in m
    ensures InsertPiece(m, e.Text()) == m[e.name := e.value]
  {
    CleanIff(e.name, "=");
    CleanFound(e.name, "=", e.value);
    assert e.Text()[..|e.name|] == e.name && e.Text()[|e.name| + 1..] == e.value;
  }

  ghost predicate PlainNames(es: seq<Entry>) {
    forall i | 0 <= i < |es| :: !Occurs("=", es[i].name)
  }

  ghost predicate NewNames(es: seq<Entry>, m: map<string, string>) {
    forall i | 0 <= i < |es| :: es[i].name !in m
  }

  lemma {:induction false} MapOfKeys(es: seq<Entry>)
    ensures forall i | 0 <= i < |es| :: es[i].name in MapOf(es)
    ensures forall n | n in MapOf(es) :: exists i :: 0 <= i < |es| && es[i].name == n
    ensures Distinct(es) ==> forall i | 0 <= i < |es| :: MapOf(es)[es[i].name] == es[i].value
  {
    if es != [] {
      MapOfKeys(es[1..]);
      assert forall i | 0 < i < |es| :: es[i] == es[1..][i - 1];
    }
  }

  lemma {:induction false} InsertTexts(m: map<string, string>, es: seq<Entry>)
    requires Distinct(es) && PlainNames(es) && NewNames(es, m)
    ensures InsertAll(m, Texts(es)) == m + MapOf(es)
    decreases |es|
  {
    if es != [] {
      var e, m' := es[0], m[es[0].name := es[0].value];
      PieceOfEntry(m, e);
      assert Texts(es)[1..] == Texts(es[1..]);
      InsertTexts(m', es[1..]);
      MapOfKeys(es[1..]);
      PutCommutes(m, MapOf(es[1..]), e);
    }
  }

  lemma PutCommutes(m: map<string, string>, rest: map<string, string>, e: Entry)
    requires e.name !in rest
    ensures m[e.name := e.value] + rest == m + rest[e.name := e.value]
  {
  }

  // Why nothing else round trips: a name read back contains neither "=" nor the separator, and the first value read
  // under a name stays.

  lemma {:induction false} InsertAllKeeps(m: map<string, string>, pieces: seq<string>)
    ensures forall n | n in m :: n in InsertAll(m, pieces) && InsertAll(m, pieces)[n] == m[n]
    decreases |pieces|
  {
    if pieces != [] {
      InsertAllKeeps(InsertPiece(m, pieces[0]), pieces[1..]);
    }
  }

  lemma PrefixOccurs(pat: string, s: string, i: nat)
    requires i <= |s|
    ensures Occurs(pat, s[..i]) ==> Occurs(pat, s)
  {
    if j :| OccursAt(pat, s[..i], j) {
      OccursInPrefix(s, i, pat, j);
    }
  }

  lemma BeforeFirst(s: string, i: nat)
    requires Find("=", s) == Some(i)
    ensures i <= |s| && !Occurs("=", s[..i])
  {
    BeforeSeparator(s, "=", i);
  }

  lemma {:induction false} NewKeys(m: map<string, string>, pieces: seq<string>, sep: string)
    requires AllWithout(pieces, sep)
    ensures forall n | n in InsertAll(m, pieces) && n !in m :: !Occurs("=", n) && !Occurs(sep, n)
    decreases |pieces|
  {
    if pieces != [] {
      var p := pieces[0];
      match Find("=", p) {
        case None =>
        case Some(i) =>
          BeforeFirst(p, i);
          PrefixOccurs(sep, p, i);
      }
      NewKeys(InsertPiece(m, p), pieces[1..], sep);
    }
  }

  /** `e` is not among the entries of `m`. */
  predicate Missing(m: map<string, string>, e: Entry) {
    e.name !in m || m[e.name] != e.value
  }

  /** An entry whose text is cut before its end is not read back. */
  lemma CutEntry(m: map<string, string>, e: Entry, s: string, sep: string)
    requires sep != "" && !Occurs("=", sep) && !Occurs("=", e.name) && e.name !in m
    requires e.Text() <= s && Find(sep, s).Some? && Find(sep, s).value < |e.Text()|
    ensures Missing(InsertAll(m, Split(s, sep)), e)
  {
    var p, n, pieces := Find(sep, s).value, |e.name|, Split(s, sep);
    NewKeys(m, pieces, sep);
    if p <= n {
      NameCut(e, s, sep, p);
    } else {
      var short := Entry(e.name, e.value[..p - n - 1]);
      assert s[..p] == e.Text()[..p] == short.Text();
      PieceOfEntry(m, short);
      InsertAllKeeps(InsertPiece(m, pieces[0]), pieces[1..]);
    }
  }

  lemma NameCut(e: Entry, s: string, sep: string, p: nat)
    requires !Occurs("=", sep) && e.Text() <= s && OccursAt(sep, s, p) && p <= |e.name|
    ensures Occurs(sep, e.name)
  {
    var n := |e.name|;
    assert s[n] == e.Text()[n] == '=';
    if p + |sep| > n {
      assert sep[n - p] == s[p..p + |sep|][n - p] == '=';
      assert sep[n - p..n - p + 1] == "=";
      assert OccursAt("=", sep, n - p);
      assert false;
    }
    assert e.name[p..p + |sep|] == s[p..p + |sep|];
    assert OccursAt(sep, e.name, p);
  }

  lemma {:induction false} NotSeparableMisses(m: map<string, string>, es: seq<Entry>, sep: string) returns (e: Entry)
    requires sep != "" && !Occurs("=", sep)
    requires es != [] && Distinct(es) && PlainNames(es) && NewNames(es, m)
    requires !Separable(Texts(es), sep)
    ensures e in es && Missing(InsertAll(m, Split(Join(Texts(es), sep), sep)), e)
    decreases |es|
  {
    var s, t := Join(Texts(es), sep), es[0].Text();
    assert Texts(es)[1..] == Texts(es[1..]);
    if |es| == 1 {
      e := es[0];
      CutEntry(m, e, s, sep);
    } else {
      var tail := Join(Texts(es[1..]), sep);
      assert s == t + sep + tail;
      SplitFirst(t, sep, tail);
      SeparableTail(Texts(es), sep);
      if Clean(t, sep) {
        PieceOfEntry(m, es[0]);
        e := NotSeparableMisses(m[es[0].name := es[0].value], es[1..], sep);
        assert Split(s, sep)[1..] == Split(tail, sep);
      } else {
        e := es[0];
        FoundEarly(t, sep, tail);
        CutEntry(m, e, s, sep);
      }
    }
  }

  lemma FoundEarly(p: string, sep: string, tail: string)
    requires sep != "" && !Clean(p, sep)
    ensures Find(sep, p + sep + tail).Some? && Find(sep, p + sep + tail).value < |p|
  {
    var s := p + sep + tail;
    CleanFound(p, sep, tail);
    assert s[|p|..|p| + |sep|] == sep;
    assert OccursAt(sep, s, |p|);
  }

  /** A vector attribute written as one line is read back exactly when no name contains "=" and every NAME=VALUE text
      can be told from the separator after it; the separators in use contain no "=". */
  lemma MarshallRoundTrip(es: seq<Entry>, sep: string)
    requires sep != "" && !Occurs("=", sep)
    requires es != [] && Distinct(es)
    ensures Unmarshalled(map[], Marshalled(es, sep).value, sep) == MapOf(es)
            <==> PlainNames(es) && Separable(Texts(es), sep)
  {
    var pieces := Split(Join(Texts(es), sep), sep);
    MapOfKeys(es);
    if !PlainNames(es) {
      NewKeys(map[], pieces, sep);
    } else if Separable(Texts(es), sep) {
      SplitJoin(Texts(es), sep);
      InsertTexts(map[], es);
    } else {
      var e := NotSeparableMisses(map[], es, sep);
    }
  }

  /** With the built-in separator an entry with another after it must not contain the separator, nor end in its first
      four characters: the separator starts and ends with the same one. */
  lemma MagicSeparatorClean(s: string)
    ensures Clean(s, "@^_^@") <==> !Occurs("@^_^@", s) && !(|s| >= 4 && s[|s| - 4..] == "@^_^")
  {
    var sep := "@^_^@";
    CleanIff(s, sep);
    assert sep[1..] == "^_^@" && sep[..4] == "@^_^";
    assert sep[2..] == "_^@" && sep[..3] == "@^_";
    assert sep[3..] == "^@" && sep[..2] == "@^";
    assert sep[4..] == "@" && sep[..1] == "@";
    assert |s| >= 4 && s[|s| - 4..] == "@^_^" ==> Overlaps(s, sep, 4);
  }

  /** The separator the variables of a context are written and read with. */
  const CONTEXT_SEPARATOR := " @^_^@ "

  /** An entry with another after it must not contain that separator, nor end in its first six characters: it starts
      and ends with the same space. */
  lemma ContextSeparatorClean(s: string)
    ensures Clean(s, CONTEXT_SEPARATOR)
            <==> !Occurs(CONTEXT_SEPARATOR, s) && !(|s| >= 6 && s[|s| - 6..] == " @^_^@")
  {
    CleanIff(s, CONTEXT_SEPARATOR);
    forall r | Overlaps(s, CONTEXT_SEPARATOR, r)
      ensures |s| >= 6 && s[|s| - 6..] == " @^_^@"
    {
      OnlySpace(s, r);
    }
    if |s| >= 6 && s[|s| - 6..] == " @^_^@" {
      SpaceOverlaps(s);
    }
  }

  lemma OnlySpace(s: string, r: nat)
    requires Overlaps(s, CONTEXT_SEPARATOR, r)
    ensures r == 6 && |s| >= 6 && s[|s| - 6..] == " @^_^@"
  {
    var sep := CONTEXT_SEPARATOR;
    assert sep[r] == sep[r..][0] == sep[..|sep| - r][0] == ' ';
    assert sep[..6] == " @^_^@";
  }

  lemma SpaceOverlaps(s: string)
    requires |s| >= 6 && s[|s| - 6..] == " @^_^@"
    ensures Overlaps(s, CONTEXT_SEPARATOR, 6)
  {
    var sep := CONTEXT_SEPARATOR;
    assert sep[6..] == " " && sep[..1] == " " && sep[..6] == " @^_^@";
  }

  /** What no entry but the last may do. */
  ghost predicate Confusing(s: string) {
    Occurs(CONTEXT_SEPARATOR, s) || (|s| >= 6 && s[|s| - 6..] == " @^_^@")
  }

  lemma NoEqualSign()
    ensures !Occurs("=", CONTEXT_SEPARATOR)
  {
    CleanOfChar(CONTEXT_SEPARATOR, '=');
  }

  /** The variables of a context, written and read back with nothing in between, are the same exactly when no name has
      "=", no entry but the last contains the separator or ends in all of it but the last space, and the last does
      not contain it. */
  lemma ContextMarshallRoundTrip(es: seq<Entry>)
    requires es != [] && Distinct(es)
    ensures Unmarshalled(map[], Marshalled(es, CONTEXT_SEPARATOR).value, CONTEXT_SEPARATOR) == MapOf(es)
            <==> && PlainNames(es)
                 && (forall i | 0 <= i < |es| - 1 :: !Confusing(Texts(es)[i]))
                 && !Occurs(CONTEXT_SEPARATOR, Texts(es)[|es| - 1])
  {
    NoEqualSign();
    MarshallRoundTrip(es, CONTEXT_SEPARATOR);
    SeparableIff(Texts(es));
  }

  lemma SeparableIff(pieces: seq<string>)
    requires pieces != []
    ensures Separable(pieces, CONTEXT_SEPARATOR)
            <==> (forall i | 0 <= i < |pieces| - 1 :: !Confusing(pieces[i])) && !Occurs(CONTEXT_SEPARATOR, pieces[|pieces| - 1])
  {
    forall i | 0 <= i < |pieces| - 1
      ensures Clean(pieces[i], CONTEXT_SEPARATOR) <==> !Confusing(pieces[i])
    {
      ContextSeparatorClean(pieces[i]);
    }
  }

  // ---------------------------------------------------------------------------------------------
  // What becomes of the variables of a context
  // ---------------------------------------------------------------------------------------------

  /** The text after the substitution of variables: without a "$" it is copied as it is (and an empty text is an error);
      what else becomes of it, `variables` says. */
  function Substituted(text: string, variables: string -> Option<string>): Option<string> {
    if '$' in text then variables(text) else if text == "" then None else Some(text)
  }

  /** The variables that a VM is left with: written to one line, substituted, and read. */
  function Stored(es: seq<Entry>, variables: string -> Option<string>): Option<map<string, string>> {
    match Marshalled(es, CONTEXT_SEPARATOR)
    case None => None
    case Some(text) =>
      match Substituted(text, variables)
      case None => None
      case Some(parsed) => Some(Unmarshalled(map[], parsed, CONTEXT_SEPARATOR))
  }

  predicate NoDollar(s: string) {
    '$' !in s
  }

  lemma {:induction false} NoDollarJoin(pieces: seq<string>, sep: string)
    requires NoDollar(sep) && forall i | 0 <= i < |pieces| :: NoDollar(pieces[i])
    ensures NoDollar(Join(pieces, sep))
  {
    if |pieces| > 1 {
      NoDollarJoin(pieces[1..], sep);
    }
  }

  lemma {:induction false} NoDollarTexts(es: seq<Entry>)
    requires forall i | 0 <= i < |es| :: NoDollar(es[i].name) && NoDollar(es[i].value)
    ensures forall i | 0 <= i < |es| :: NoDollar(Texts(es)[i]) && Texts(es)[i] != ""
  {
    if es != [] {
      NoDollarTexts(es[1..]);
    }
  }

  lemma NotEmptyText(es: seq<Entry>)
    requires es != []
    ensures Join(Texts(es), CONTEXT_SEPARATOR) != ""
  {
    assert Texts(es)[0] == es[0].Text();
  }

  /** Variables without a "$" are what the VM is left with exactly when no name has "=", no entry but the last contains
      the separator or ends in all of it but the last space, and the last does not contain it. */
  lemma ContextStored(es: seq<Entry>, variables: string -> Option<string>)
    requires es != [] && Distinct(es)
    requires forall i | 0 <= i < |es| :: NoDollar(es[i].name) && NoDollar(es[i].value)
    ensures Stored(es, variables) == Some(MapOf(es))
            <==> && PlainNames(es)
                 && (forall i | 0 <= i < |es| - 1 :: !Confusing(Texts(es)[i]))
                 && !Occurs(CONTEXT_SEPARATOR, Texts(es)[|es| - 1])
  {
    StoredPlain(es, variables);
    ContextMarshallRoundTrip(es);
  }

  lemma StoredPlain(es: seq<Entry>, variables: string -> Option<string>)
    requires es != []
    requires forall i | 0 <= i < |es| :: NoDollar(es[i].name) && NoDollar(es[i].value)
    ensures Stored(es, variables) == Some(Unmarshalled(map[], Marshalled(es, CONTEXT_SEPARATOR).value, CONTEXT_SEPARATOR))
  {
    NoDollarTexts(es);
    NoDollarJoin(Texts(es), CONTEXT_SEPARATOR);
    NotEmptyText(es);
  }

  /** Two variables that are not read back: the value of the first ends in " @^_^@". Without a "$" the VM is left with
      others. */
  lemma ContextNotReadBack(name: string, value: string, other: Entry, variables: string -> Option<string>)
    requires name != other.name
    ensures var es := [Entry(name, value + " @^_^@"), other];
            && Unmarshalled(map[], Marshalled(es, CONTEXT_SEPARATOR).value, CONTEXT_SEPARATOR) != MapOf(es)
            && (NoDollar(name) && NoDollar(value) && NoDollar(other.name) && NoDollar(other.value)
                ==> Stored(es, variables).Some? && Stored(es, variables).value != MapOf(es))
  {
    var es := [Entry(name, value + " @^_^@"), other];
    EndsConfusing(name, value);
    assert Confusing(Texts(es)[0]);
    ContextMarshallRoundTrip(es);
    if NoDollar(name) && NoDollar(value) && NoDollar(other.name) && NoDollar(other.value) {
      StoredPlain(es, variables);
    }
  }

  lemma EndsConfusing(name: string, value: string)
    ensures Confusing(Entry(name, value + " @^_^@").Text())
  {
    var text := name + "=" + (value + " @^_^@");
    assert text[|text| - 6..] == " @^_^@";
  }

  // ---------------------------------------------------------------------------------------------
  // The texts literally
  // ---------------------------------------------------------------------------------------------

  /** A stored name has no lower-case letter, starts with a letter unless it is empty, and starts with XML exactly when
      the given one started with another spelling of it; it is the given one in upper case, behind ONE_ when that starts
      with something that is no letter or with XML. */
  lemma NormalisedIs(a: string)
    ensures forall i | 0 <= i < |Normalised(a)| :: !('a' <= Normalised(a)[i] <= 'z')
    ensures a != "" ==> Normalised(a) != "" && IsAlpha(Normalised(a)[0])
    ensures (|Normalised(a)| >= 3 && Normalised(a)[..3] == "XML") <==> StartsLikeXml(a)
    ensures Normalised(a) == if (a != "" && !IsAlpha(a[0])) || "XML" <= a then "ONE_" + Upper(a) else Upper(a)
  {
    UpperTwice(a);
    assert "XML" <= a <==> |a| >= 3 && a[..3] == "XML";
    assert ("ONE_" + Upper(a))[0] == 'O';
    if a != "" && !IsAlpha(a[0]) {
      NoLetterNoXml(a);
    }
  }

  /** The element text of an attribute. */
  lemma XmlIs(name: string, value: string)
    ensures XmlText(name, value) == "<" + name + "><![CDATA[" + value + "]]></" + name + ">"
  {
    var s, t := XmlText(name, value), "<" + name + "><![CDATA[" + value + "]]></" + name + ">";
    assert ">" + CDATA == "><![CDATA[" && CDATA_END + "</" == "]]></";
    assert s == "<" + name + (">" + CDATA) + value + (CDATA_END + "</") + name + ">";
  }

  /** What a piece of a line adds to a vector attribute: NAME=VALUE gives a new name its value and leaves an old one, and a
      piece without "=" adds nothing. */
  lemma PieceAdds(m: map<string, string>, e: Entry, piece: string)
    ensures !Occurs("=", e.name) ==> InsertPiece(m, e.Text()) == if e.name in m then m else m[e.name := e.value]
    ensures !Occurs("=", piece) ==> InsertPiece(m, piece) == m
  {
    if !Occurs("=", e.name) {
      CleanIff(e.name, "=");
      CleanFound(e.name, "=", e.value);
      assert e.Text()[..|e.name|] == e.name && e.Text()[|e.name| + 1..] == e.value;
    }
    if Find("=", piece).Some? {
      assert OccursAt("=", piece, Find("=", piece).value);
    }
  }

  /** Reading a line keeps what the attribute had. */
  lemma UnmarshalledKeeps(m: map<string, string>, s: string, sep: string)
    requires sep != ""
    ensures forall n | n in m :: n in Unmarshalled(m, s, sep) && Unmarshalled(m, s, sep)[n] == m[n]
  {
    InsertAllKeeps(m, Split(s, sep));
  }
}
