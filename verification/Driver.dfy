/** The line protocol between the core and its authorization driver: the request line, and the parser of replies. */
module Driver {
  import opened Sequences
  import opened Separators
  import opened Text
  import opened Words
  import Base64

  // ---------------------------------------------------------------------------------------------
  // Requests
  // ---------------------------------------------------------------------------------------------

  datatype ObjectType = VM | HOST | NET | IMAGE | USER | TEMPLATE | GROUP | ACL | DATASTORE | CLUSTER | DOCUMENT

  function TypeText(t: ObjectType): string {
    match t
    case VM => "VM"
    case HOST => "HOST"
    case NET => "NET"
    case IMAGE => "IMAGE"
    case USER => "USER"
    case TEMPLATE => "TEMPLATE"
    case GROUP => "GROUP"
    case ACL => "ACL"
    case DATASTORE => "DATASTORE"
    case CLUSTER => "CLUSTER"
    case DOCUMENT => "DOCUMENT"
  }

  datatype Operation = USE | MANAGE | ADMIN | CREATE

  function OperationText(op: Operation): string {
    match op
    case USE => "USE"
    case MANAGE => "MANAGE"
    case ADMIN => "ADMIN"
    case CREATE => "CREATE"
  }

  /** A template of a new object is passed as XML. */
  predicate IsXml(s: string) {
    s != "" && s[0] == '<' && Base64.IsBytes(s)
  }

  type Xml = s: string | IsXml(s) witness "<"

  /** What is authorized: an object by its id, or a new one by its template, when it could be encoded. */
  datatype Target = Id(oid: int) | Template(xml: Xml) | NotEncoded

  function TargetText(t: Target): string {
    match t
    case Id(oid) => Printed(oid)
    case Template(xml) => Base64.Encode(xml)
    case NotEncoded => "-"
  }

  function Flag(b: bool): string {
    if b then "1" else "0"
  }

  /** OBJECT:OBJECT_ID:ACTION:OWNER:AUTH */
  datatype Item = Item(objType: ObjectType, target: Target, op: Operation, owner: int, granted: bool)
  {
    function Fields(): seq<string> {
      [TypeText(objType), TargetText(target), OperationText(op), Printed(owner), Flag(granted)]
    }

    function Line(): string {
      TypeText(objType) + ":" + TargetText(target) + ":" + OperationText(op) + ":" + Printed(owner) + ":" + Flag(granted)
    }
  }

  /** The texts of requests, in the order they were added. */
  function Lines(items: seq<Item>): (r: seq<string>)
    ensures |r| == |items|
  {
    seq(|items|, i requires 0 <= i < |items| => items[i].Line())
  }

  predicate AllGranted(items: seq<Item>) {
    forall i | 0 <= i < |items| :: items[i].granted
  }

  class AuthRequest {
    const uid: int
    const gid: int
    var auths: seq<string>
    var selfAuthorize: bool
    ghost var items: seq<Item>

    /** The texts are those of the requests added, and the verdict is that every one of them was granted. */
    ghost predicate Valid()
      reads this
    {
      auths == Lines(items) && selfAuthorize == AllGranted(items)
    }

    constructor (uid: int, gid: int)
      ensures Valid() && this.uid == uid && this.gid == gid && items == []
    {
      this.uid, this.gid, auths, selfAuthorize, items := uid, gid, [], true, [];
    }

    /** `aclGrants` is the answer of the access control list, asked only of ordinary users. */
    method AddTarget(objType: ObjectType, target: Target, op: Operation, owner: int, aclGrants: bool)
      requires Valid()
      modifies this
      ensures Valid()
      ensures items == old(items) + [Item(objType, target, op, owner, uid == 0 || gid == 0 || aclGrants)]
    {
      var auth := uid == 0 || gid == 0 || aclGrants;
      var line := TypeText(objType) + ":" + TargetText(target) + ":" + OperationText(op) + ":" + Printed(owner) + ":"
        + Flag(auth);
      LinesSnoc(items, Item(objType, target, op, owner, auth));
      items := items + [Item(objType, target, op, owner, auth)];
      selfAuthorize := selfAuthorize && auth;
      auths := auths + [line];
    }

    /** An operation on an object. */
    method AddAuth(objType: ObjectType, oid: int, op: Operation, owner: int, aclGrants: bool)
      requires Valid()
      modifies this
      ensures Valid()
      ensures items == old(items) + [Item(objType, Id(oid), op, owner, uid == 0 || gid == 0 || aclGrants)]
    {
      AddTarget(objType, Id(oid), op, owner, aclGrants);
    }

    /** The creation of an object, with no id yet: by its template if there is one and it can be encoded. */
    method AddCreateAuth(objType: ObjectType, template: string, encodes: bool, aclGrants: bool)
      requires Valid() && (template == "" || IsXml(template))
      modifies this
      ensures Valid()
      ensures items == old(items)
        + [Item(objType, if template == "" then Id(-1) else if encodes then Template(template) else NotEncoded,
                CREATE, uid, uid == 0 || gid == 0 || aclGrants)]
    {
      if template != "" {
        if encodes {
          AddTarget(objType, Template(template), CREATE, uid, aclGrants);
        } else {
          AddTarget(objType, NotEncoded, CREATE, uid, aclGrants);
        }
      } else {
        AddTarget(objType, Id(-1), CREATE, uid, aclGrants);
      }
    }

    /** The requests in one line, separated by spaces. */
    method GetAuths() returns (s: string)
      ensures s == Join(auths, " ")
    {
      s := "";
      if auths == [] {
        return;
      }
      var i := 0;
      assert auths[0..] == auths;
      while i < |auths| - 1
        invariant 0 <= i <= |auths| - 1
        invariant s + Join(auths[i..], " ") == Join(auths, " ")
      {
        assert auths[i..][1..] == auths[i + 1..];
        JoinRegroups(s, auths[i], Join(auths[i + 1..], " "));
        s := s + auths[i] + " ";
        i := i + 1;
      }
      s := s + auths[i];
    }

    /** The core's own verdict: the first user may do anything, another what was granted throughout. */
    predicate CoreAuthorize()
      requires Valid()
      reads this
      ensures CoreAuthorize() <==> uid == 0 || AllGranted(items)
    {
      uid == 0 || selfAuthorize
    }
  }

  lemma LinesSnoc(items: seq<Item>, x: Item)
    ensures Lines(items + [x]) == Lines(items) + [x.Line()]
    ensures AllGranted(items + [x]) <==> AllGranted(items) && x.granted
  {
    var all := items + [x];
    assert all[|items|] == x && forall i | 0 <= i < |items| :: items[i] == all[i];
  }

  lemma JoinRegroups(s: string, a: string, rest: string)
    ensures s + (a + " " + rest) == (s + a + " ") + rest
  {
  }

  /** The line written to the driver; `endl` ends it. */
  function AuthorizeLine(oid: int, uid: int, reqs: string, acl: bool): string {
    "AUTHORIZE" + Cell(Printed(oid)) + Cell(Printed(uid)) + Cell(reqs) + Cell(Flag(acl)) + "\n"
  }

  // ---------------------------------------------------------------------------------------------
  // The request line is uniquely readable
  // ---------------------------------------------------------------------------------------------

  lemma PrintedIsWord(n: int)
    ensures Plain(Printed(n))
  {
  }

  lemma PrintedInjective(m: int, n: int)
    requires Printed(m) == Printed(n)
    ensures m == n
  {
    NumberOfDecimal(if m < 0 then -m else m);
    NumberOfDecimal(if n < 0 then -n else n);
    assert m < 0 <==> Printed(m)[0] == '-';
    assert n < 0 <==> Printed(n)[0] == '-';
    assert m < 0 ==> Printed(m)[1..] == Decimal(-m);
    assert n < 0 ==> Printed(n)[1..] == Decimal(-n);
  }

  /** Split into words, the line is the keyword, the two ids, the requests and the verdict, also with no request at
      all; and that for exactly those lists whose requests are words. */
  lemma AuthorizeWords(oid: int, uid: int, reqs: seq<string>, acl: bool)
    ensures WordsOf(AuthorizeLine(oid, uid, Join(reqs, " "), acl))
            == ["AUTHORIZE", Printed(oid), Printed(uid)] + reqs + [Flag(acl)]
            <==> AllWords(reqs)
  {
    if AllWords(reqs) {
      WordsOfLine(oid, uid, reqs, acl);
    } else {
      WordsAreWords(AuthorizeLine(oid, uid, Join(reqs, " "), acl));
      NotAllWords(["AUTHORIZE", Printed(oid), Printed(uid)], reqs, [Flag(acl)]);
    }
  }

  lemma NotAllWords(a: seq<string>, b: seq<string>, c: seq<string>)
    ensures AllWords(a + b + c) ==> AllWords(b)
  {
    assert forall i | 0 <= i < |b| :: b[i] == (a + b + c)[|a| + i];
  }

  lemma WordsOfLine(oid: int, uid: int, reqs: seq<string>, acl: bool)
    requires AllWords(reqs)
    ensures WordsOf(AuthorizeLine(oid, uid, Join(reqs, " "), acl))
            == ["AUTHORIZE", Printed(oid), Printed(uid)] + reqs + [Flag(acl)]
  {
    PrintedIsWord(oid);
    PrintedIsWord(uid);
    WordsOfParts("AUTHORIZE", Printed(oid), Printed(uid), reqs, Flag(acl));
  }

  lemma WordsOfParts(a: string, b: string, c: string, reqs: seq<string>, f: string)
    requires IsWord(a) && IsWord(b) && IsWord(c) && AllWords(reqs) && IsWord(f)
    ensures WordsOf(a + Cell(b) + Cell(c) + Cell(Join(reqs, " ")) + Cell(f) + "\n") == [a, b, c] + reqs + [f]
  {
    var tail := Cell(Join(reqs, " ")) + (Cell(f) + "\n");
    TailWords(reqs, f);
    ThreeCells(a, b, c, tail);
    LineRegroups(a, b, c, Join(reqs, " "), f);
    WordsRegroup(a, b, c, reqs, f);
  }

  lemma TailWords(reqs: seq<string>, f: string)
    requires AllWords(reqs) && IsWord(f)
    ensures WordsOf(Cell(Join(reqs, " ")) + (Cell(f) + "\n")) == reqs + [f]
  {
    EndOfLine(f);
    JoinedWords(reqs, Cell(f) + "\n");
  }

  lemma EndOfLine(f: string)
    requires IsWord(f)
    ensures WordsOf(Cell(f) + "\n") == [f]
  {
    CellFirst(f, "\n");
    SpaceFirst('\n', "");
    assert "\n" == ['\n'] + "";
    assert Trimmed("") == "" && WordsOf("") == [];
  }

  lemma ThreeCells(a: string, b: string, c: string, rest: string)
    requires IsWord(a) && IsWord(b) && IsWord(c) && rest != "" && rest[0] == ' '
    ensures WordsOf(a + (Cell(b) + (Cell(c) + rest))) == [a] + ([b] + ([c] + WordsOf(rest)))
  {
    CellFirst(c, rest);
    CellFirst(b, Cell(c) + rest);
    WordFirst(a, Cell(b) + (Cell(c) + rest));
  }

  lemma LineRegroups(a: string, b: string, c: string, r: string, f: string)
    ensures a + Cell(b) + Cell(c) + Cell(r) + Cell(f) + "\n" == a + (Cell(b) + (Cell(c) + (Cell(r) + (Cell(f) + "\n"))))
  {
  }

  lemma WordsRegroup(a: string, b: string, c: string, reqs: seq<string>, f: string)
    ensures [a] + ([b] + ([c] + (reqs + [f]))) == [a, b, c] + reqs + [f]
  {
  }

  predicate Plain(s: string) {
    IsWord(s) && ':' !in s
  }

  lemma TargetPlain(t: Target)
    ensures Plain(TargetText(t))
  {
    match t
    case Id(oid) => PrintedIsWord(oid);
    case Template(xml) => Base64.EncodedLetters(xml);
    case NotEncoded =>
  }

  lemma NamesPlain(t: ObjectType, op: Operation, b: bool)
    ensures Plain(TypeText(t)) && Plain(OperationText(op)) && Plain(Flag(b))
  {
  }

  lemma FieldsPlain(x: Item)
    ensures forall i | 0 <= i < 5 :: Plain(x.Fields()[i])
  {
    PrintedIsWord(x.owner);
    TargetPlain(x.target);
    NamesPlain(x.objType, x.op, x.granted);
  }

  lemma LineIsJoin(x: Item)
    ensures x.Line() == Join(x.Fields(), ":")
  {
    var f := x.Fields();
    assert f[1..][1..] == f[2..] && f[2..][1..] == f[3..] && f[3..][1..] == f[4..];
    assert Join(f[4..], ":") == f[4];
    assert Join(f[3..], ":") == f[3] + ":" + f[4];
    assert Join(f[2..], ":") == f[2] + ":" + (f[3] + ":" + f[4]);
    assert Join(f[1..], ":") == f[1] + ":" + (f[2] + ":" + (f[3] + ":" + f[4]));
    assert x.Line() == f[0] + ":" + (f[1] + ":" + (f[2] + ":" + (f[3] + ":" + f[4])));
  }

  /** A request is one word, and its five fields are what stands between the colons. */
  lemma ItemReadable(x: Item)
    ensures IsWord(x.Line()) && Split(x.Line(), ":") == x.Fields()
  {
    FieldsPlain(x);
    LineIsJoin(x);
    NoSpaceJoin(x.Fields(), ":");
    FieldsSeparable(x);
    SplitJoin(x.Fields(), ":");
  }

  lemma FieldsSeparable(x: Item)
    ensures Separable(x.Fields(), ":")
  {
    FieldsPlain(x);
    var f := x.Fields();
    forall i | 0 <= i < 4
      ensures Clean(f[i], ":")
    {
      CleanOfChar(f[i], ':');
    }
    CleanOfChar(f[4], ':');
  }

  /** The words `w` tell everything that went into a request line: the ids, the verdict, how many requests there are,
      and the five fields of each. */
  ghost predicate Tells(w: seq<string>, oid: int, uid: int, items: seq<Item>, acl: bool) {
    && |w| == |items| + 4
    && w[0] == "AUTHORIZE" && w[1] == Printed(oid) && w[2] == Printed(uid) && w[|w| - 1] == Flag(acl)
    && forall i | 0 <= i < |items| :: Split(w[3 + i], ":") == items[i].Fields()
  }

  function RequestLine(oid: int, uid: int, items: seq<Item>, acl: bool): string {
    AuthorizeLine(oid, uid, Join(Lines(items), " "), acl)
  }

  lemma LinesReadable(items: seq<Item>)
    ensures AllWords(Lines(items))
    ensures forall i | 0 <= i < |items| :: Split(Lines(items)[i], ":") == items[i].Fields()
  {
    forall i | 0 <= i < |items|
      ensures IsWord(Lines(items)[i]) && Split(Lines(items)[i], ":") == items[i].Fields()
    {
      ItemReadable(items[i]);
    }
  }

  lemma Assembled(w: seq<string>, head: seq<string>, mid: seq<string>, last: string)
    requires w == head + mid + [last] && |head| == 3
    ensures |w| == |mid| + 4 && w[0] == head[0] && w[1] == head[1] && w[2] == head[2] && w[|w| - 1] == last
    ensures forall i | 0 <= i < |mid| :: w[3 + i] == mid[i]
  {
  }

  /** The line for any list of requests, the empty one included, is told by its words. */
  lemma LineReadable(oid: int, uid: int, items: seq<Item>, acl: bool)
    ensures Tells(WordsOf(RequestLine(oid, uid, items, acl)), oid, uid, items, acl)
  {
    LinesReadable(items);
    AuthorizeWords(oid, uid, Lines(items), acl);
    var w := WordsOf(RequestLine(oid, uid, items, acl));
    Assembled(w, ["AUTHORIZE", Printed(oid), Printed(uid)], Lines(items), Flag(acl));
  }

  lemma TellsOnce(w: seq<string>, oid1: int, uid1: int, items1: seq<Item>, acl1: bool,
                  oid2: int, uid2: int, items2: seq<Item>, acl2: bool)
    requires Tells(w, oid1, uid1, items1, acl1) && Tells(w, oid2, uid2, items2, acl2)
    ensures oid1 == oid2 && uid1 == uid2 && acl1 == acl2 && |items1| == |items2|
    ensures forall i | 0 <= i < |items1| :: items1[i].Fields() == items2[i].Fields()
  {
    PrintedInjective(oid1, oid2);
    PrintedInjective(uid1, uid2);
  }

  /** What the text of a target starts with: a digit or a minus, or, for a template, a P. */
  lemma TargetStarts(t: Target)
    ensures TargetText(t) != ""
    ensures t.Template? <==> TargetText(t)[0] == 'P'
    ensures TargetText(t) == "-" <==> t.NotEncoded?
  {
    match t
    case Id(oid) =>
      if oid < 0 {
        assert |Printed(oid)| >= 2;
      }
    case Template(xml) =>
      Base64.EncodedLetters(xml);
      assert Base64.Code('<') / 4 == 15;
    case NotEncoded =>
  }

  lemma TargetsEqual(t: Target, u: Target)
    ensures TargetText(t) == TargetText(u) <==> t == u
  {
    if TargetText(t) == TargetText(u) {
      TargetStarts(t);
      TargetStarts(u);
      if t.Template? {
        Base64.EncodeInjective(t.xml, u.xml);
      } else if t.Id? {
        PrintedInjective(t.oid, u.oid);
      }
    }
  }

  lemma TypeTextInjective(t: ObjectType, u: ObjectType)
    ensures TypeText(t) == TypeText(u) <==> t == u
  {
    var a, b := TypeText(t), TypeText(u);
    assert |a| == |b| && a[0] == b[0] && a[|a| - 1] == b[|b| - 1] ==> t == u;
  }

  /** The fields of an item determine it. */
  lemma FieldsDetermine(x: Item, y: Item)
    ensures x.Fields() == y.Fields() <==> x == y
  {
    if x.Fields() == y.Fields() {
      SameFields(x, y);
      TypeTextInjective(x.objType, y.objType);
      TargetsEqual(x.target, y.target);
      PrintedInjective(x.owner, y.owner);
      assert OperationText(x.op)[0] == OperationText(y.op)[0];
    }
  }

  lemma SameFields(x: Item, y: Item)
    requires x.Fields() == y.Fields()
    ensures TypeText(x.objType) == TypeText(y.objType) && TargetText(x.target) == TargetText(y.target)
    ensures OperationText(x.op) == OperationText(y.op) && Printed(x.owner) == Printed(y.owner)
    ensures Flag(x.granted) == Flag(y.granted)
  {
    assert forall i | 0 <= i < 5 :: x.Fields()[i] == y.Fields()[i];
    assert x.Fields()[0] == TypeText(x.objType) && x.Fields()[1] == TargetText(x.target);
    assert x.Fields()[2] == OperationText(x.op) && x.Fields()[3] == Printed(x.owner) && x.Fields()[4] == Flag(x.granted);
  }

  /** Two requests with the same line are the same request: ids, verdict, and item by item what is authorized. */
  lemma LineUnique(oid1: int, uid1: int, items1: seq<Item>, acl1: bool,
                   oid2: int, uid2: int, items2: seq<Item>, acl2: bool)
    requires RequestLine(oid1, uid1, items1, acl1) == RequestLine(oid2, uid2, items2, acl2)
    ensures oid1 == oid2 && uid1 == uid2 && acl1 == acl2 && items1 == items2
  {
    LineReadable(oid1, uid1, items1, acl1);
    LineReadable(oid2, uid2, items2, acl2);
    TellsOnce(WordsOf(RequestLine(oid1, uid1, items1, acl1)), oid1, uid1, items1, acl1, oid2, uid2, items2, acl2);
    forall i | 0 <= i < |items1|
      ensures items1[i] == items2[i]
    {
      FieldsDetermine(items1[i], items2[i]);
    }
  }

  // ---------------------------------------------------------------------------------------------
  // The words and fields literally
  // ---------------------------------------------------------------------------------------------

  /** The first word of the line is AUTHORIZE, then come the two ids in decimal, and the last word is 1 when the access
      control list grants everything and 0 when it does not. */
  lemma LineWords(oid: int, uid: int, reqs: seq<string>, acl: bool)
    requires AllWords(reqs)
    ensures var w := WordsOf(AuthorizeLine(oid, uid, Join(reqs, " "), acl));
            && |w| == |reqs| + 4 && w[0] == "AUTHORIZE" && w[1] == Printed(oid) && w[2] == Printed(uid)
            && (forall i | 0 <= i < |reqs| :: w[3 + i] == reqs[i])
            && (w[|w| - 1] == "1" <==> acl) && (w[|w| - 1] == "0" <==> !acl)
  {
    AuthorizeWords(oid, uid, reqs, acl);
    var w := WordsOf(AuthorizeLine(oid, uid, Join(reqs, " "), acl));
    Assembled(w, ["AUTHORIZE", Printed(oid), Printed(uid)], reqs, Flag(acl));
  }

  /** A word that stands for an operation. */
  predicate NamesOperation(word: string, op: Operation) {
    && (word == "USE" <==> op == USE) && (word == "MANAGE" <==> op == MANAGE)
    && (word == "ADMIN" <==> op == ADMIN) && (word == "CREATE" <==> op == CREATE)
  }

  /** A word that stands for a type of objects. */
  predicate NamesType(word: string, t: ObjectType) {
    && (word == "VM" <==> t == VM) && (word == "HOST" <==> t == HOST) && (word == "NET" <==> t == NET)
    && (word == "IMAGE" <==> t == IMAGE) && (word == "USER" <==> t == USER) && (word == "TEMPLATE" <==> t == TEMPLATE)
    && (word == "GROUP" <==> t == GROUP) && (word == "ACL" <==> t == ACL) && (word == "DATASTORE" <==> t == DATASTORE)
    && (word == "CLUSTER" <==> t == CLUSTER) && (word == "DOCUMENT" <==> t == DOCUMENT)
  }

  /** Between the colons of a request stand, in this order, the type of the object, its id in decimal or its template in
      base64, the operation, the owner, and 1 when the access control list grants it or 0. */
  lemma ItemFields(x: Item)
    ensures var f := Split(x.Line(), ":");
            && |f| == 5 && NamesType(f[0], x.objType)
            && f[1] == (match x.target case Id(oid) => Printed(oid) case Template(xml) => Base64.Encode(xml) case NotEncoded => "-")
            && NamesOperation(f[2], x.op) && f[3] == Printed(x.owner)
            && (f[4] == "1" <==> x.granted) && (f[4] == "0" <==> !x.granted)
  {
    ItemReadable(x);
    TypeNamed(x.objType);
    OperationNamed(x.op);
  }

  lemma TypeNamed(t: ObjectType)
    ensures NamesType(TypeText(t), t)
  {
    TypeTextInjective(t, VM);
    TypeTextInjective(t, HOST);
    TypeTextInjective(t, NET);
    TypeTextInjective(t, IMAGE);
    TypeTextInjective(t, USER);
    TypeTextInjective(t, TEMPLATE);
    TypeTextInjective(t, GROUP);
    TypeTextInjective(t, ACL);
    TypeTextInjective(t, DATASTORE);
    TypeTextInjective(t, CLUSTER);
    TypeTextInjective(t, DOCUMENT);
  }

  lemma OperationNamed(op: Operation)
    ensures NamesOperation(OperationText(op), op)
  {
    var w := OperationText(op);
    assert w[0] == 'U' || w[0] == 'M' || w[0] == 'A' || w[0] == 'C';
  }

  /** The text of a request says that it is granted. */
  predicate SaysGranted(line: string) {
    var f := Split(line, ":");
    |f| == 5 && f[4] == "1"
  }

  /** Everything is granted when the text of every request says so. */
  lemma GrantedFields(items: seq<Item>)
    ensures AllGranted(items) <==> forall i | 0 <= i < |items| :: SaysGranted(items[i].Line())
  {
    forall i | 0 <= i < |items|
      ensures SaysGranted(items[i].Line()) <==> items[i].granted
    {
      ItemFields(items[i]);
    }
  }
}
