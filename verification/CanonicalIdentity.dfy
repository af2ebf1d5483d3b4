/** Length-prefixed canonical identities and the link names made from them: nothing two different
    declarations share. */
module CanonicalIdentity {
  import opened Bits

  /** One byte of a string. */
  type Octet = c: char | c as int < 256
  type Text = seq<Octet>

  const WORD: nat := 0x1_0000_0000_0000_0000

  /** Sizes and counts are 64-bit numbers. */
  predicate Fits(n: nat) {
    n < WORD
  }

  // ----- framing -----

  /** The `k` low bytes of a number, least significant first. */
  function LowBytes(value: nat, k: nat): (r: Text)
    ensures |r| == k
  {
    if k == 0 then [] else [(value % 256) as char] + LowBytes(value / 256, k - 1)
  }

  function Count(value: nat): (r: Text)
    ensures |r| == 8
  {
    LowBytes(value, 8)
  }

  function Component(value: Text): Text {
    Count(|value|) + value
  }

  function Components(values: seq<Text>): Text {
    if values == [] then [] else Component(values[0]) + Components(values[1..])
  }

  lemma {:induction false} LowBytesInjective(a: nat, b: nat, k: nat)
    requires a < Power256(k) && b < Power256(k) && LowBytes(a, k) == LowBytes(b, k)
    ensures a == b
  {
    if k > 0 {
      var x, y := LowBytes(a, k), LowBytes(b, k);
      assert x[0] == y[0] && x[1..] == y[1..];
      assert x[1..] == LowBytes(a / 256, k - 1) && y[1..] == LowBytes(b / 256, k - 1);
      LowBytesInjective(a / 256, b / 256, k - 1);
    }
  }

  lemma CountInjective(a: nat, b: nat)
    requires Fits(a) && Fits(b) && Count(a) == Count(b)
    ensures a == b
  {
    assert Power256(4) == 0x1_0000_0000;
    assert Power256(8) == WORD;
    LowBytesInjective(a, b, 8);
  }

  /** What follows a component can be told apart from it. */
  lemma ComponentCuts(a: Text, b: Text, x: Text, y: Text)
    requires Fits(|a|) && Fits(|b|) && Component(a) + x == Component(b) + y
    ensures a == b && x == y
  {
    var l, r := Component(a) + x, Component(b) + y;
    assert l[..8] == Count(|a|) && r[..8] == Count(|b|);
    CountInjective(|a|, |b|);
    assert l[8..8 + |a|] == a && r[8..8 + |a|] == b;
    assert l[8 + |a|..] == x && r[8 + |a|..] == y;
  }

  ghost predicate AllFit(values: seq<Text>) {
    Fits(|values|) && forall i :: 0 <= i < |values| ==> Fits(|values[i]|)
  }

  lemma {:induction false} ComponentsCut(a: seq<Text>, b: seq<Text>, x: Text, y: Text)
    requires AllFit(a) && AllFit(b) && |a| == |b| && Components(a) + x == Components(b) + y
    ensures a == b && x == y
  {
    if a != [] {
      var restA, restB := Components(a[1..]) + x, Components(b[1..]) + y;
      Assoc(Component(a[0]), Components(a[1..]), x);
      Assoc(Component(b[0]), Components(b[1..]), y);
      ComponentCuts(a[0], b[0], restA, restB);
      ComponentsCut(a[1..], b[1..], x, y);
      assert a == [a[0]] + a[1..] && b == [b[0]] + b[1..];
    } else {
      assert Components(a) + x == x && Components(b) + y == y;
    }
  }

  /** A counted list of components. */
  function List(values: seq<Text>): Text {
    Count(|values|) + Components(values)
  }

  lemma ListCuts(a: seq<Text>, b: seq<Text>, x: Text, y: Text)
    requires AllFit(a) && AllFit(b) && List(a) + x == List(b) + y
    ensures a == b && x == y
  {
    var l, r := List(a) + x, List(b) + y;
    assert l[..8] == Count(|a|) && r[..8] == Count(|b|);
    CountInjective(|a|, |b|);
    assert l[8..] == Components(a) + x && r[8..] == Components(b) + y;
    ComponentsCut(a, b, x, y);
  }

  // ----- dotted source packages -----

  /** The next dot from `begin` on, or the end. */
  function FindDot(s: Text, begin: nat): (end: nat)
    requires begin <= |s|
    ensures begin <= end <= |s|
    ensures forall k :: begin <= k < end ==> s[k] != '.'
    ensures end < |s| ==> s[end] == '.'
    decreases |s| - begin
  {
    if begin == |s| || s[begin] == '.' then begin else FindDot(s, begin + 1)
  }

  function SplitFrom(s: Text, begin: nat): (parts: seq<Text>)
    requires begin <= |s|
    ensures parts != []
    decreases |s| - begin
  {
    var end := FindDot(s, begin);
    if end == |s| then [s[begin..]] else [s[begin..end]] + SplitFrom(s, end + 1)
  }

  function SourceComponents(s: Text): seq<Text> {
    if s == [] then [] else SplitFrom(s, 0)
  }

  function Join(parts: seq<Text>): Text
    requires parts != []
  {
    if |parts| == 1 then parts[0] else parts[0] + "." + Join(parts[1..])
  }

  lemma {:induction false} JoinUndoesSplit(s: Text, begin: nat)
    requires begin <= |s|
    ensures Join(SplitFrom(s, begin)) == s[begin..]
    decreases |s| - begin
  {
    var end := FindDot(s, begin);
    if end < |s| {
      var rest := SplitFrom(s, end + 1);
      JoinUndoesSplit(s, end + 1);
      JoinFirst(s[begin..end], rest);
      CutAtDot(s, begin, end);
    }
  }

  lemma JoinFirst(first: Text, rest: seq<Text>)
    requires rest != []
    ensures Join([first] + rest) == first + "." + Join(rest)
  {
    assert ([first] + rest)[1..] == rest;
  }

  lemma CutAtDot(s: Text, begin: nat, end: nat)
    requires begin <= end < |s| && s[end] == '.'
    ensures s[begin..] == s[begin..end] + "." + s[end + 1..]
  {
  }

  lemma SourceComponentsInjective(a: Text, b: Text)
    requires SourceComponents(a) == SourceComponents(b)
    ensures a == b
  {
    if a != [] && b != [] {
      JoinUndoesSplit(a, 0);
      JoinUndoesSplit(b, 0);
      assert a[0..] == a && b[0..] == b;
    }
  }

  function Dots(s: Text, begin: nat): nat
    requires begin <= |s|
    decreases |s| - begin
  {
    if begin == |s| then 0 else (if s[begin] == '.' then 1 else 0) + Dots(s, begin + 1)
  }

  lemma {:induction false} NoDots(s: Text, begin: nat, end: nat)
    requires begin <= end <= |s| && forall k :: begin <= k < end ==> s[k] != '.'
    ensures Dots(s, begin) == Dots(s, end)
    decreases end - begin
  {
    if begin < end { NoDots(s, begin + 1, end); }
  }

  lemma {:induction false} SplitCount(s: Text, begin: nat)
    requires begin <= |s|
    ensures |SplitFrom(s, begin)| == 1 + Dots(s, begin)
    decreases |s| - begin
  {
    var end := FindDot(s, begin);
    NoDots(s, begin, end);
    if end < |s| { SplitCount(s, end + 1); }
  }

  // ----- identities -----

  datatype Package = Package(name: Text, version: Text)

  datatype NominalKind = Class | Interface | Enum | Struct

  datatype Nominal = Nominal(package: Package, sourcePackage: Text, name: Text, kind: NominalKind)

  datatype MemberKind = Function | Constructor | ConstructorInitializer | StaticField | InstanceField | Descriptor
      | EnumCase

  function KindTag(kind: NominalKind): Text {
    match kind
    case Struct => "struct"
    case Enum => "enum"
    case Class => "class"
    case Interface => "interface"
  }

  function MemberTag(kind: MemberKind): Text {
    match kind
    case Function => "function"
    case Constructor => "constructor"
    case ConstructorInitializer => "constructor-initializer"
    case StaticField => "static-field"
    case InstanceField => "instance-field"
    case Descriptor => "descriptor"
    case EnumCase => "enum-case"
  }

  function PackageTag(p: Package): Text {
    if p.name == [] then "standalone" else "package"
  }

  function NominalIdentity(n: Nominal): Text {
    Component("nominal") + (Component(PackageTag(n.package))
                            + (Component(n.package.name) + (Component(n.package.version)
      + (List(SourceComponents(n.sourcePackage)) + (Component(n.name) + Component(KindTag(n.kind)))))))
  }

  function Wrapped(tag: Text, element: Text): Text {
    Component(tag) + Component(element)
  }

  function PrimitiveIdentity(name: Text): Text { Wrapped("primitive", name) }
  function ArrayIdentity(element: Text): Text { Wrapped("array", element) }
  function NullableIdentity(element: Text): Text { Wrapped("nullable", element) }

  function MemberIdentity(owner: Nominal, kind: MemberKind, name: Text, parameters: seq<Text>): Text {
    Component(MemberTag(kind)) + (Component(NominalIdentity(owner)) + (Component(name) + List(parameters)))
  }

  method CountSourceComponents(s: Text) returns (count: nat)
    ensures count == |SourceComponents(s)|
  {
    count := if s == [] then 0 else 1;
    for k := 0 to |s|
      invariant count + Dots(s, k) == (if s == [] then 0 else 1) + Dots(s, 0)
    {
      if s[k] == '.' { count := count + 1; }
    }
    if s != [] { SplitCount(s, 0); }
  }

  /** Cuts the source package at each dot and appends the pieces. */
  method AppendSourceComponents(head: Text, s: Text, count: nat) returns (result: Text)
    requires count == |SourceComponents(s)|
    ensures result == head + Components(SourceComponents(s))
  {
    result := head;
    ghost var rest := SourceComponents(s);
    var begin := 0;
    for index := 0 to count
      invariant begin <= |s| && |rest| == count - index
      invariant rest != [] ==> rest == SplitFrom(s, begin)
      invariant result + Components(rest) == head + Components(SourceComponents(s))
    {
      var end := FindDot(s, begin);
      assert rest[0] == s[begin..end];
      Assoc(result, Component(s[begin..end]), Components(rest[1..]));
      result := result + Component(s[begin..end]);
      rest := rest[1..];
      if end != |s| {
        begin := end + 1;
      }
    }
    assert result + [] == result;
  }

  /** The nominal identity built as the compiler does: counting dots, then cutting at each. */
  method BuildNominalIdentity(n: Nominal) returns (result: Text)
    ensures result == NominalIdentity(n)
  {
    var prefix := Component("nominal") + Component(PackageTag(n.package)) + Component(n.package.name)
        + Component(n.package.version);
    var count := CountSourceComponents(n.sourcePackage);
    result := AppendSourceComponents(prefix + Count(count), n.sourcePackage, count);
    result := result + Component(n.name) + Component(KindTag(n.kind));
    Nest(Component("nominal"), Component(PackageTag(n.package)), Component(n.package.name),
         Component(n.package.version),
         Count(count), Components(SourceComponents(n.sourcePackage)), Component(n.name), Component(KindTag(n.kind)));
  }

  lemma Nest(a: Text, b: Text, c: Text, d: Text, e: Text, f: Text, g: Text, h: Text)
    ensures a + b + c + d + e + f + g + h == a + (b + (c + (d + ((e + f) + (g + h)))))
  {
    Assoc(a + b + c, d, ((e + f) + (g + h)));
    Assoc(a + b, c, d + ((e + f) + (g + h)));
    Assoc(a, b, c + (d + ((e + f) + (g + h))));
    Assoc(a + b + c + d, e, f);
    Assoc(a + b + c + d + (e + f), g, h);
    Assoc(a + b + c + d, e + f, g + h);
  }

  lemma Assoc(a: Text, b: Text, c: Text)
    ensures (a + b) + c == a + (b + c)
  {
  }

  // ----- injectivity -----

  /** Every part of an identity has a 64-bit size. */
  ghost predicate NominalFits(n: Nominal) {
    Fits(|n.package.name|) && Fits(|n.package.version|) && Fits(|n.name|) && AllFit(SourceComponents(n.sourcePackage))
  }

  lemma KindTagInjective(a: NominalKind, b: NominalKind)
    requires KindTag(a) == KindTag(b)
    ensures a == b
  {
    assert |KindTag(a)| == |KindTag(b)|;
  }

  lemma MemberTagInjective(a: MemberKind, b: MemberKind)
    requires MemberTag(a) == MemberTag(b)
    ensures a == b
  {
    assert |MemberTag(a)| == |MemberTag(b)|;
  }

  lemma NominalIdentityInjective(a: Nominal, b: Nominal)
    requires NominalFits(a) && NominalFits(b) && NominalIdentity(a) == NominalIdentity(b)
    ensures a == b
  {
    var a5, b5 := Component(a.name) + Component(KindTag(a.kind)), Component(b.name) + Component(KindTag(b.kind));
    var a4, b4 := List(SourceComponents(a.sourcePackage)) + a5, List(SourceComponents(b.sourcePackage)) + b5;
    var a3, b3 := Component(a.package.version) + a4, Component(b.package.version) + b4;
    var a2, b2 := Component(a.package.name) + a3, Component(b.package.name) + b3;
    ComponentCuts("nominal", "nominal", Component(PackageTag(a.package)) + a2, Component(PackageTag(b.package)) + b2);
    ComponentCuts(PackageTag(a.package), PackageTag(b.package), a2, b2);
    ComponentCuts(a.package.name, b.package.name, a3, b3);
    ComponentCuts(a.package.version, b.package.version, a4, b4);
    ListCuts(SourceComponents(a.sourcePackage), SourceComponents(b.sourcePackage), a5, b5);
    SourceComponentsInjective(a.sourcePackage, b.sourcePackage);
    ComponentCuts(a.name, b.name, Component(KindTag(a.kind)), Component(KindTag(b.kind)));
    WholeComponent(KindTag(a.kind), KindTag(b.kind));
    KindTagInjective(a.kind, b.kind);
  }

  lemma WholeComponent(a: Text, b: Text)
    requires Fits(|a|) && Fits(|b|) && Component(a) == Component(b)
    ensures a == b
  {
    assert Component(a) + [] == Component(a) && Component(b) + [] == Component(b);
    ComponentCuts(a, b, [], []);
  }

  lemma WrappedInjective(s: Text, t: Text, a: Text, b: Text)
    requires Fits(|s|) && Fits(|t|) && Fits(|a|) && Fits(|b|) && Wrapped(s, a) == Wrapped(t, b)
    ensures s == t && a == b
  {
    ComponentCuts(s, t, Component(a), Component(b));
    WholeComponent(a, b);
  }

  ghost predicate MemberFits(owner: Nominal, name: Text, parameters: seq<Text>) {
    NominalFits(owner) && Fits(|NominalIdentity(owner)|) && Fits(|name|) && AllFit(parameters)
  }

  lemma MemberIdentityInjective(o: Nominal, k: MemberKind, n: Text, p: seq<Text>, o': Nominal, k': MemberKind,
                                n': Text, p': seq<Text>)
    requires MemberFits(o, n, p) && MemberFits(o', n', p')
    requires MemberIdentity(o, k, n, p) == MemberIdentity(o', k', n', p')
    ensures o == o' && k == k' && n == n' && p == p'
  {
    var a, b := Component(n) + List(p), Component(n') + List(p');
    ComponentCuts(MemberTag(k), MemberTag(k'), Component(NominalIdentity(o)) + a, Component(NominalIdentity(o')) + b);
    MemberTagInjective(k, k');
    ComponentCuts(NominalIdentity(o), NominalIdentity(o'), a, b);
    NominalIdentityInjective(o, o');
    ComponentCuts(n, n', List(p), List(p'));
    assert List(p) + [] == List(p) && List(p') + [] == List(p');
    ListCuts(p, p', [], []);
  }

  /** The five forms an identity can take. */
  datatype Identity =
    | NominalOf(nominal: Nominal)
    | PrimitiveOf(name: Text)
    | ArrayOf(element: Text)
    | NullableOf(element: Text)
    | MemberOf(owner: Nominal, kind: MemberKind, member: Text, parameters: seq<Text>)

  function Spell(i: Identity): Text {
    match i
    case NominalOf(n) => NominalIdentity(n)
    case PrimitiveOf(name) => PrimitiveIdentity(name)
    case ArrayOf(element) => ArrayIdentity(element)
    case NullableOf(element) => NullableIdentity(element)
    case MemberOf(owner, kind, member, parameters) => MemberIdentity(owner, kind, member, parameters)
  }

  ghost predicate IdentityFits(i: Identity) {
    match i
    case NominalOf(n) => NominalFits(n)
    case PrimitiveOf(name) => Fits(|name|)
    case ArrayOf(element) => Fits(|element|)
    case NullableOf(element) => Fits(|element|)
    case MemberOf(owner, _, member, parameters) => MemberFits(owner, member, parameters)
  }

  function Tag(i: Identity): Text {
    match i
    case NominalOf(_) => "nominal"
    case PrimitiveOf(_) => "primitive"
    case ArrayOf(_) => "array"
    case NullableOf(_) => "nullable"
    case MemberOf(_, kind, _, _) => MemberTag(kind)
  }

  /** What follows the leading tag. */
  function AfterTag(i: Identity): Text {
    match i
    case NominalOf(n) => Component(PackageTag(n.package)) + (Component(n.package.name) + (Component(n.package.version)
      + (List(SourceComponents(n.sourcePackage)) + (Component(n.name) + Component(KindTag(n.kind))))))
    case PrimitiveOf(name) => Component(name)
    case ArrayOf(element) => Component(element)
    case NullableOf(element) => Component(element)
    case MemberOf(owner, _, member, parameters) =>
      Component(NominalIdentity(owner)) + (Component(member) + List(parameters))
  }

  lemma SpellStartsWithTag(i: Identity)
    ensures Spell(i) == Component(Tag(i)) + AfterTag(i)
  {
  }

  lemma TagsTellFormsApart(a: Identity, b: Identity)
    requires Tag(a) == Tag(b)
    ensures a.NominalOf? == b.NominalOf? && a.PrimitiveOf? == b.PrimitiveOf? && a.ArrayOf? == b.ArrayOf?
    ensures a.NullableOf? == b.NullableOf? && a.MemberOf? == b.MemberOf?
  {
    assert |Tag(a)| == |Tag(b)| && Tag(a)[0] == Tag(b)[0];
  }

  /** A text that starts with a tag is spelled by an identity of that tag only. */
  lemma SpellingFixesTag(tag: Text, rest: Text, i: Identity)
    requires Fits(|tag|) && Component(tag) + rest == Spell(i)
    ensures tag == Tag(i)
  {
    SpellStartsWithTag(i);
    TagFits(i);
    ComponentCuts(tag, Tag(i), rest, AfterTag(i));
  }

  lemma TagFits(i: Identity)
    ensures Fits(|Tag(i)|)
  {
  }

  lemma SameSpellingSameForm(a: Identity, b: Identity)
    requires Spell(a) == Spell(b)
    ensures Tag(a) == Tag(b)
  {
    SpellStartsWithTag(a);
    TagFits(a);
    SpellingFixesTag(Tag(a), AfterTag(a), b);
  }

  /** Different identities are spelled differently, within each form and across forms. */
  lemma SpellInjective(a: Identity, b: Identity)
    requires IdentityFits(a) && IdentityFits(b) && Spell(a) == Spell(b)
    ensures a == b
  {
    SameSpellingSameForm(a, b);
    TagsTellFormsApart(a, b);
    match a {
      case NominalOf(n) => NominalIdentityInjective(n, b.nominal);
      case PrimitiveOf(name) => WrappedInjective("primitive", "primitive", name, b.name);
      case ArrayOf(element) => WrappedInjective("array", "array", element, b.element);
      case NullableOf(element) => WrappedInjective("nullable", "nullable", element, b.element);
      case MemberOf(owner, kind, member, parameters) =>
        MemberIdentityInjective(owner, kind, member, parameters, b.owner, b.kind, b.member, b.parameters);
    }
  }

  // ----- link names -----

  const HEX: string := "0123456789abcdef"

  function Hex(text: Text): string {
    if text == [] then "" else [HEX[text[0] as int / 16], HEX[text[0] as int % 16]] + Hex(text[1..])
  }

  /** The link name of an identity: the ABI version, then its bytes in hexadecimal. */
  function Mangle(identity: Text): string {
    "_C7" + Hex(identity)
  }

  lemma HexDigitInjective(a: nat, b: nat)
    requires a < 16 && b < 16 && HEX[a] == HEX[b]
    ensures a == b
  {
    assert forall i :: 0 <= i < 16 ==> HEX[i] as int == if i < 10 then '0' as int + i else 'a' as int + i - 10;
  }

  lemma {:induction false} HexInjective(a: Text, b: Text)
    requires Hex(a) == Hex(b)
    ensures a == b
  {
    if a != [] && b != [] {
      var x, y := Hex(a), Hex(b);
      assert x[0] == y[0] && x[1] == y[1] && x[2..] == y[2..];
      assert x[2..] == Hex(a[1..]) && y[2..] == Hex(b[1..]);
      HexDigitInjective(a[0] as int / 16, b[0] as int / 16);
      HexDigitInjective(a[0] as int % 16, b[0] as int % 16);
      HexInjective(a[1..], b[1..]);
    }
  }

  method BuildMangled(identity: Text) returns (result: string)
    ensures result == Mangle(identity)
  {
    result := "_C7";
    for i := 0 to |identity|
      invariant result == "_C7" + Hex(identity[..i])
    {
      HexSnoc(identity[..i], identity[i]);
      assert identity[..i + 1] == identity[..i] + [identity[i]];
      var byte := identity[i] as int;
      result := result + [HEX[byte / 16]] + [HEX[byte % 16]];
    }
    assert identity[..|identity|] == identity;
  }

  lemma {:induction false} HexSnoc(text: Text, c: Octet)
    ensures Hex(text + [c]) == Hex(text) + [HEX[c as int / 16], HEX[c as int % 16]]
  {
    if text == [] {
      assert text + [c] == [c];
    } else {
      HexSnoc(text[1..], c);
      assert (text + [c])[1..] == text[1..] + [c];
    }
  }

  /** Two members share a link name only when they are the same member of the same owner. */
  lemma LinkNamesAreUnique(a: Identity, b: Identity)
    requires IdentityFits(a) && IdentityFits(b)
    ensures Mangle(Spell(a)) == Mangle(Spell(b)) <==> a == b
  {
    if Mangle(Spell(a)) == Mangle(Spell(b)) {
      assert Mangle(Spell(a))[3..] == Hex(Spell(a)) && Mangle(Spell(b))[3..] == Hex(Spell(b));
      HexInjective(Spell(a), Spell(b));
      SpellInjective(a, b);
    }
  }
}
