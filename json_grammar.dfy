/**
 * What the scanner of libcperciva/util/json.c does on JSON text, following
 * the grammar of section 2 of RFC 8259: values are literals, numbers,
 * strings, arrays and objects, written here in their compact form (no
 * whitespace between tokens).  Skipping a value lands just past its text,
 * a member name matches a target exactly when it spells the target
 * without a \u escape, and json_find returns the position of the value of
 * the first member whose name matches, or the end when none does.
 */
module JsonGrammar {
  import opened Bytes
  import opened Json

  datatype Literal = LitFalse | LitNull | LitTrue

  /** One character of a string: unescaped, a two-character escape, or \u and four hex digits. */
  datatype Unit = Plain(c: byte) | Escaped(e: byte) | Unicode(hex: seq<byte>)

  datatype Value =
    | Lit(lit: Literal)
    | Number(text: seq<byte>)
    | Str(units: seq<Unit>)
    | Array(elems: seq<Value>)
    | Object(members: seq<Member>)

  datatype Member = Member(name: seq<Unit>, value: Value)

  predicate IsHexDigit(c: byte)
  {
    0x30 <= c <= 0x39 || 0x41 <= c <= 0x46 || 0x61 <= c <= 0x66
  }

  /** Section 7 of RFC 8259: control characters, '"' and '\' are escaped. */
  predicate UnitOk(u: Unit)
  {
    match u
    case Plain(c) => c >= 0x20 && c != QUOTE && c != BACKSLASH
    case Escaped(e) => IsSimpleEscape(e)
    case Unicode(h) => |h| == 4 && forall i :: 0 <= i < 4 ==> IsHexDigit(h[i])
  }

  predicate UnitsOk(us: seq<Unit>)
  {
    forall i :: 0 <= i < |us| ==> UnitOk(us[i])
  }

  /** A number is written with the characters of section 6 of RFC 8259. */
  predicate NumberOk(t: seq<byte>)
  {
    |t| > 0 && forall i :: 0 <= i < |t| ==> IsNumChar(t[i]) && t[i] != 0
  }

  predicate ValueOk(v: Value)
    decreases v, 1
  {
    match v
    case Lit(_) => true
    case Number(t) => NumberOk(t)
    case Str(us) => UnitsOk(us)
    case Array(es) => ElemsOk(es)
    case Object(ms) => MembersOk(ms)
  }

  predicate ElemsOk(es: seq<Value>)
    decreases es, 0
  {
    forall i :: 0 <= i < |es| ==> ValueOk(es[i])
  }

  predicate MembersOk(ms: seq<Member>)
    decreases ms, 0
  {
    forall i :: 0 <= i < |ms| ==> UnitsOk(ms[i].name) && ValueOk(ms[i].value)
  }

  /* The compact text of a value. */

  function UnitText(u: Unit): seq<byte>
  {
    match u
    case Plain(c) => [c]
    case Escaped(e) => [BACKSLASH, e]
    case Unicode(h) => [BACKSLASH, LOWER_U] + h
  }

  function UnitsText(us: seq<Unit>): seq<byte>
  {
    if us == [] then [] else UnitText(us[0]) + UnitsText(us[1..])
  }

  function StrText(us: seq<Unit>): seq<byte>
  {
    [QUOTE] + UnitsText(us) + [QUOTE]
  }

  function LitText(l: Literal): seq<byte>
  {
    match l
    case LitFalse => FALSE
    case LitNull => NULL
    case LitTrue => TRUE
  }

  function Text(v: Value): seq<byte>
    decreases v, 1
  {
    match v
    case Lit(l) => LitText(l)
    case Number(t) => t
    case Str(us) => StrText(us)
    case Array(es) => [LBRACKET] + ElemsText(es) + [RBRACKET]
    case Object(ms) => [LBRACE] + MembersText(ms) + [RBRACE]
  }

  /** The elements, separated by commas. */
  function ElemsText(es: seq<Value>): seq<byte>
    decreases es, 0
  {
    if es == [] then []
    else if |es| == 1 then Text(es[0])
    else Text(es[0]) + [COMMA] + ElemsText(es[1..])
  }

  function MemberText(m: Member): seq<byte>
    decreases m, 0
  {
    StrText(m.name) + [COLON] + Text(m.value)
  }

  /** The members, separated by commas. */
  function MembersText(ms: seq<Member>): seq<byte>
    decreases ms, 0
  {
    if ms == [] then []
    else if |ms| == 1 then MemberText(ms[0])
    else MemberText(ms[0]) + [COMMA] + MembersText(ms[1..])
  }

  /** What a name decodes to, escapes replaced by the characters they stand for. */
  function Decode(us: seq<Unit>): seq<byte>
  {
    if us == [] then []
    else
      var rest := Decode(us[1..]);
      match us[0]
      case Plain(c) => [c] + rest
      case Escaped(e) => (if IsSimpleEscape(e) then [EscapeValue(e)] else []) + rest
      case Unicode(_) => rest
  }

  predicate HasUnicode(us: seq<Unit>)
  {
    us != [] && (us[0].Unicode? || HasUnicode(us[1..]))
  }

  /** The name matches s: it spells s, without a \u escape. */
  predicate NameIs(us: seq<Unit>, s: seq<byte>)
  {
    !HasUnicode(us) && Decode(us) == s
  }

  /** The first member whose name matches s, or |ms| when there is none. */
  function FirstNamed(ms: seq<Member>, s: seq<byte>): (i: nat)
    ensures i <= |ms|
  {
    if ms == [] then 0
    else if NameIs(ms[0].name, s) then 0
    else 1 + FirstNamed(ms[1..], s)
  }

  /** FirstNamed is the first: no earlier name is s, and the one it names is. */
  lemma {:induction false} FirstNamedSpec(ms: seq<Member>, s: seq<byte>)
    ensures forall j :: 0 <= j < FirstNamed(ms, s) ==> !NameIs(ms[j].name, s)
    ensures FirstNamed(ms, s) < |ms| ==> NameIs(ms[FirstNamed(ms, s)].name, s)
  {
    if ms != [] && !NameIs(ms[0].name, s) {
      FirstNamedSpec(ms[1..], s);
      assert forall j :: 1 <= j < FirstNamed(ms, s) ==> ms[j] == ms[1..][j - 1];
    }
  }

  /** What follows a value's text cannot continue a number. */
  predicate Follows(buf: seq<byte>, q: nat)
  {
    q == |buf| || (q < |buf| && !IsNumChar(buf[q]))
  }

  /* Reading texts in buf. */

  lemma Assoc3(a: seq<byte>, b: seq<byte>, c: seq<byte>)
    ensures a + b + c == a + (b + c)
  {
  }

  lemma Assoc4(a: seq<byte>, b: seq<byte>, c: seq<byte>, d: seq<byte>)
    ensures a + b + c + d == a + (b + (c + d))
  {
  }

  lemma AtSplit(buf: seq<byte>, p: nat, x: seq<byte>, y: seq<byte>)
    requires At(buf, p, x + y)
    ensures At(buf, p, x) && At(buf, p + |x|, y)
  {
    forall i | 0 <= i < |x| ensures buf[p + i] == ByteOf(x, i) {
      assert buf[p + i] == ByteOf(x + y, i);
    }
    forall i | 0 <= i < |y| ensures buf[p + |x| + i] == ByteOf(y, i) {
      assert buf[p + (|x| + i)] == ByteOf(x + y, |x| + i);
    }
  }

  lemma AtFirst(buf: seq<byte>, p: nat, x: seq<byte>)
    requires At(buf, p, x) && |x| > 0
    ensures p < |buf| && buf[p] == x[0]
  {
    assert buf[p + 0] == ByteOf(x, 0);
  }

  /** Where buf holds x + [c], c comes after x. */
  lemma AtLast(buf: seq<byte>, p: nat, x: seq<byte>, c: byte)
    requires At(buf, p, x + [c])
    ensures At(buf, p, x) && p + |x| < |buf| && buf[p + |x|] == c
  {
    AtSplit(buf, p, x, [c]);
    AtFirst(buf, p + |x|, [c]);
  }

  /** A value's text starts with a byte that is not whitespace and not a closing bracket or brace. */
  lemma TextStart(v: Value)
    requires ValueOk(v)
    ensures |Text(v)| > 0
    ensures !IsWs(Text(v)[0]) && Text(v)[0] != RBRACKET && Text(v)[0] != RBRACE
  {
  }

  /** A number's text is read by skip_number up to the first byte that cannot continue it. */
  lemma {:induction false} NumberRun(buf: seq<byte>, p: nat, t: seq<byte>)
    requires At(buf, p, t) && (forall i :: 0 <= i < |t| ==> IsNumChar(t[i])) && Follows(buf, p + |t|)
    ensures NumberEnd(buf, p) == p + |t|
    decreases |t|
  {
    if t != [] {
      assert t == [t[0]] + t[1..];
      AtSplit(buf, p, [t[0]], t[1..]);
      AtFirst(buf, p, t);
      NumberRun(buf, p + 1, t[1..]);
    }
  }

  /** One pass of skip_string's loop over a unit. */
  lemma StringStep(buf: seq<byte>, q: nat, u: Unit)
    requires UnitOk(u) && At(buf, q, UnitText(u))
    ensures StringEnd(buf, q) == StringEnd(buf, q + |UnitText(u)|)
  {
    AtFirst(buf, q, UnitText(u));
    if !u.Plain? {
      assert UnitText(u) == [BACKSLASH] + UnitText(u)[1..];
      AtSplit(buf, q, [BACKSLASH], UnitText(u)[1..]);
      AtFirst(buf, q + 1, UnitText(u)[1..]);
    }
  }

  /** After the opening quote, skip_string goes past the units and the closing quote. */
  lemma {:induction false} UnitsEnd(buf: seq<byte>, q: nat, us: seq<Unit>)
    requires UnitsOk(us) && At(buf, q, UnitsText(us) + [QUOTE])
    ensures StringEnd(buf, q) == q + |UnitsText(us)| + 1
    decreases |us|
  {
    if us == [] {
      AtFirst(buf, q, UnitsText(us) + [QUOTE]);
    } else {
      var u, rest := us[0], us[1..];
      UnitsCons(us);
      AtSplit(buf, q, UnitText(u), UnitsText(rest) + [QUOTE]);
      StringStep(buf, q, u);
      UnitsEnd(buf, q + |UnitText(u)|, rest);
    }
  }

  /**
   * match_str compares a name's decoded characters with the target from
   * position i: it ends past the closing quote, and the name matches when
   * foundit was still set, it spells the rest of the target and has no \u.
   */
  lemma {:induction false} MatchText(buf: seq<byte>, q: nat, us: seq<Unit>, s: seq<byte>, i: nat, f: bool)
    requires UnitsOk(us) && At(buf, q, UnitsText(us) + [QUOTE]) && i <= |s|
    ensures MatchScan(buf, q, s, i, f) == (q + |UnitsText(us)| + 1, f && !HasUnicode(us) && Decode(us) == s[i..])
    decreases |us|
  {
    if us == [] {
      AtFirst(buf, q, UnitsText(us) + [QUOTE]);
    } else {
      var u, rest := us[0], us[1..];
      UnitsCons(us);
      AtSplit(buf, q, UnitText(u), UnitsText(rest) + [QUOTE]);
      var i2, f2 := MatchUnit(us, s, i, f);
      MatchStep(buf, q, u, s, i, f);
      MatchText(buf, q + |UnitText(u)|, rest, s, i2, f2);
    }
  }

  /** Where the target and foundit stand after the first unit, and what the match of the rest then says of the whole. */
  lemma MatchUnit(us: seq<Unit>, s: seq<byte>, i: nat, f: bool) returns (i2: nat, f2: bool)
    requires us != [] && UnitsOk(us) && i <= |s|
    ensures i2 == Advance(s, i) && f2 == (f && !us[0].Unicode? && Matches(s, i, UnitChar(us[0])))
    ensures (f && !HasUnicode(us) && Decode(us) == s[i..]) == (f2 && !HasUnicode(us[1..]) && Decode(us[1..]) == s[i2..])
  {
    UnitsCons(us);
    i2 := Advance(s, i);
    f2 := f && !us[0].Unicode? && Matches(s, i, UnitChar(us[0]));
    if !us[0].Unicode? {
      DecodeStep(s, i, UnitChar(us[0]), Decode(us[1..]));
    }
  }

  /** A name is its first unit, then the rest. */
  lemma UnitsCons(us: seq<Unit>)
    requires us != [] && UnitsOk(us)
    ensures UnitOk(us[0]) && UnitsOk(us[1..])
    ensures UnitsText(us) + [QUOTE] == UnitText(us[0]) + (UnitsText(us[1..]) + [QUOTE])
    ensures |UnitsText(us)| == |UnitText(us[0])| + |UnitsText(us[1..])|
    ensures HasUnicode(us) == (us[0].Unicode? || HasUnicode(us[1..]))
    ensures !us[0].Unicode? ==> Decode(us) == [UnitChar(us[0])] + Decode(us[1..])
  {
    assert forall j :: 0 <= j < |us[1..]| ==> us[1..][j] == us[j + 1];
  }

  /** The character a unit other than \u stands for. */
  function UnitChar(u: Unit): (c: byte)
    requires UnitOk(u)
    ensures u.Plain? ==> c == u.c
    ensures u.Escaped? ==> c == EscapeValue(u.e)
    ensures c != 0
  {
    match u
    case Plain(c) => c
    case Escaped(e) => EscapeValue(e)
    case Unicode(_) => 0x20
  }

  /** One pass of match_str's loop over a unit. */
  lemma MatchStep(buf: seq<byte>, q: nat, u: Unit, s: seq<byte>, i: nat, f: bool)
    requires UnitOk(u) && At(buf, q, UnitText(u)) && i <= |s|
    ensures MatchScan(buf, q, s, i, f) == MatchScan(buf, q + |UnitText(u)|, s, Advance(s, i), f && !u.Unicode? && Matches(s, i, UnitChar(u)))
  {
    AtFirst(buf, q, UnitText(u));
    if !u.Plain? {
      assert UnitText(u) == [BACKSLASH] + UnitText(u)[1..];
      AtSplit(buf, q, [BACKSLASH], UnitText(u)[1..]);
      AtFirst(buf, q + 1, UnitText(u)[1..]);
    }
  }

  /** Comparing c, then the rest, with the target from i is comparing [c] + rest with it. */
  lemma DecodeStep(s: seq<byte>, i: nat, c: byte, rest: seq<byte>)
    requires i <= |s| && c != 0
    ensures (Matches(s, i, c) && rest == s[Advance(s, i)..]) <==> [c] + rest == s[i..]
  {
    if i < |s| {
      assert s[i..] == [s[i]] + s[i + 1..];
      if [c] + rest == s[i..] {
        assert rest == ([c] + rest)[1..];
      }
    }
  }

  /**
   * skip_value goes exactly past the text of a value, given that the text
   * is not followed by more of a number.
   */
  lemma {:induction false} ValueText(buf: seq<byte>, p: nat, v: Value)
    requires ValueOk(v) && At(buf, p, Text(v)) && Follows(buf, p + |Text(v)|)
    ensures ValueEnd(buf, p) == p + |Text(v)|
    decreases v, 2
  {
    TextStart(v);
    AtFirst(buf, p, Text(v));
    match v
    case Lit(l) =>
      LiteralEndSpec(buf, p);
    case Number(t) =>
      NumberRun(buf, p, t);
    case Str(us) =>
      StrValue(buf, p, us);
    case Array(es) =>
      ArrayValue(buf, p, es);
    case Object(ms) =>
      ObjectValue(buf, p, ms);
  }

  /** skip_string goes exactly past a string's text. */
  lemma StrValue(buf: seq<byte>, p: nat, us: seq<Unit>)
    requires UnitsOk(us) && At(buf, p, StrText(us))
    ensures StringAt(buf, p) == p + |StrText(us)|
  {
    assert StrText(us) == [QUOTE] + (UnitsText(us) + [QUOTE]);
    AtSplit(buf, p, [QUOTE], UnitsText(us) + [QUOTE]);
    UnitsEnd(buf, p + 1, us);
  }

  /** skip_array goes exactly past an array's text. */
  lemma {:induction false} ArrayValue(buf: seq<byte>, p: nat, es: seq<Value>)
    requires ElemsOk(es) && At(buf, p, Text(Array(es)))
    ensures p < |buf| && ArrayEnd(buf, p) == p + |Text(Array(es))|
    decreases es, 2
  {
    var body := ElemsText(es) + [RBRACKET];
    assert At(buf, p + 1, body) by {
      assert Text(Array(es)) == [LBRACKET] + (ElemsText(es) + [RBRACKET]);
      AtSplit(buf, p, [LBRACKET], body);
    }
    assert p < |buf| by {
      AtFirst(buf, p, Text(Array(es)));
    }
    assert |Text(Array(es))| == |body| + 1;
    if es == [] {
      assert buf[p + 1] == RBRACKET by {
        AtFirst(buf, p + 1, body);
      }
      assert WsEnd(buf, p + 1) == p + 1;
    } else {
      assert !IsWs(buf[p + 1]) && buf[p + 1] != RBRACKET by {
        ElemsCons(es);
        TextStart(es[0]);
        AtSplit(buf, p + 1, Text(es[0]), ElemsAfter(es));
        AtFirst(buf, p + 1, Text(es[0]));
      }
      assert WsEnd(buf, p + 1) == p + 1;
      ElemsEnd(buf, p + 1, es);
    }
  }

  /** skip_object goes exactly past an object's text. */
  lemma {:induction false} ObjectValue(buf: seq<byte>, p: nat, ms: seq<Member>)
    requires MembersOk(ms) && At(buf, p, Text(Object(ms)))
    ensures p < |buf| && ObjectEnd(buf, p) == p + |Text(Object(ms))|
    decreases ms, 3
  {
    var body := MembersText(ms) + [RBRACE];
    assert At(buf, p + 1, body) by {
      assert Text(Object(ms)) == [LBRACE] + (MembersText(ms) + [RBRACE]);
      AtSplit(buf, p, [LBRACE], body);
    }
    assert p < |buf| by {
      AtFirst(buf, p, Text(Object(ms)));
    }
    assert |Text(Object(ms))| == |body| + 1;
    if ms == [] {
      assert buf[p + 1] == RBRACE by {
        AtFirst(buf, p + 1, body);
      }
      assert WsEnd(buf, p + 1) == p + 1;
    } else {
      assert p + 1 < |buf| && buf[p + 1] == QUOTE by {
        var c, e := MemberFront(buf, p + 1, ms);
      }
      assert WsEnd(buf, p + 1) == p + 1;
      MembersEnd(buf, p + 1, ms);
    }
  }

  /** What follows the first element: the closing bracket, or a comma and the other elements. */
  function ElemsAfter(es: seq<Value>): seq<byte>
    requires es != []
  {
    if |es| == 1 then [RBRACKET] else [COMMA] + (ElemsText(es[1..]) + [RBRACKET])
  }

  lemma ElemsCons(es: seq<Value>)
    requires es != []
    ensures ElemsText(es) + [RBRACKET] == Text(es[0]) + ElemsAfter(es)
  {
    if |es| > 1 {
      Assoc4(Text(es[0]), [COMMA], ElemsText(es[1..]), [RBRACKET]);
    }
  }

  lemma ElemsTail(es: seq<Value>)
    requires es != [] && ElemsOk(es)
    ensures ValueOk(es[0]) && ElemsOk(es[1..])
  {
    assert forall i :: 0 <= i < |es| - 1 ==> es[1..][i] == es[i + 1];
  }

  /** The loop of skip_array goes past the elements and the closing bracket. */
  lemma {:induction false} ElemsEnd(buf: seq<byte>, q: nat, es: seq<Value>)
    requires es != [] && ElemsOk(es) && At(buf, q, ElemsText(es) + [RBRACKET])
    ensures ArrayItems(buf, q) == q + |ElemsText(es)| + 1
    decreases es, 1
  {
    var e := ElemStep(buf, q, es);
    if |es| > 1 {
      ElemsEnd(buf, e + 1, es[1..]);
    }
  }

  /** One turn of skip_array's loop: past the first element to the ']', or to the ',' at e before the others. */
  lemma ElemStep(buf: seq<byte>, q: nat, es: seq<Value>) returns (e: nat)
    requires es != [] && ElemsOk(es) && At(buf, q, ElemsText(es) + [RBRACKET])
    ensures |es| == 1 ==> ArrayItems(buf, q) == q + |ElemsText(es)| + 1
    ensures |es| > 1 ==> e < |buf| && ElemsOk(es[1..]) && At(buf, e + 1, ElemsText(es[1..]) + [RBRACKET])
    ensures |es| > 1 ==> ArrayItems(buf, q) == ArrayItems(buf, e + 1) && e + 1 + |ElemsText(es[1..])| == q + |ElemsText(es)|
    decreases es, 0
  {
    var v := es[0];
    var a := ElemsAfter(es);
    e := q + |Text(v)|;
    assert ValueOk(v) && ElemsOk(es[1..]) by {
      ElemsTail(es);
    }
    assert At(buf, q, Text(v)) && At(buf, e, a) && |ElemsText(es)| + 1 == |Text(v)| + |a| by {
      ElemsCons(es);
      AtSplit(buf, q, Text(v), a);
    }
    assert e < |buf| && buf[e] == a[0] by {
      AtFirst(buf, e, a);
    }
    assert ValueEnd(buf, q) == e by {
      ValueText(buf, q, v);
    }
    ItemStep(buf, q, e);
    if |es| > 1 {
      var b := ElemsText(es[1..]) + [RBRACKET];
      assert a == [COMMA] + b;
      AtSplit(buf, e, [COMMA], b);
    }
  }

  /** What follows the first member: the closing brace, or a comma and the other members. */
  function MembersAfter(ms: seq<Member>): seq<byte>
    requires ms != []
  {
    if |ms| == 1 then [RBRACE] else [COMMA] + (MembersText(ms[1..]) + [RBRACE])
  }

  lemma MembersCons(ms: seq<Member>)
    requires ms != []
    ensures MembersText(ms) + [RBRACE] == MemberText(ms[0]) + MembersAfter(ms)
  {
    if |ms| > 1 {
      Assoc4(MemberText(ms[0]), [COMMA], MembersText(ms[1..]), [RBRACE]);
    }
  }

  lemma MembersTail(ms: seq<Member>)
    requires ms != [] && MembersOk(ms)
    ensures UnitsOk(ms[0].name) && ValueOk(ms[0].value) && MembersOk(ms[1..])
  {
    assert forall i :: 0 <= i < |ms| - 1 ==> ms[1..][i] == ms[i + 1];
  }

  /** Through a member's name and colon: the value's text starts at c. */
  lemma MemberAt(buf: seq<byte>, q: nat, m: Member) returns (c: nat)
    requires UnitsOk(m.name) && At(buf, q, MemberText(m))
    ensures c == q + |StrText(m.name)| + 1 && c + |Text(m.value)| == q + |MemberText(m)|
    ensures At(buf, c, Text(m.value)) && At(buf, q, StrText(m.name))
    ensures StringAt(buf, q) == c - 1 && c - 1 < |buf| && buf[c - 1] == COLON
  {
    c := q + |StrText(m.name)| + 1;
    var y := [COLON] + Text(m.value);
    assert At(buf, q, StrText(m.name)) && At(buf, c - 1, y) by {
      assert MemberText(m) == StrText(m.name) + ([COLON] + Text(m.value));
      AtSplit(buf, q, StrText(m.name), y);
    }
    assert StringAt(buf, q) == c - 1 by {
      StrValue(buf, q, m.name);
    }
    assert At(buf, c, Text(m.value)) by {
      AtSplit(buf, c - 1, [COLON], Text(m.value));
    }
    assert c - 1 < |buf| && buf[c - 1] == COLON by {
      AtFirst(buf, c - 1, y);
    }
  }

  /* One turn of the loops of skip_object and json_find, read off the byte positions. */

  lemma ItemsStep(buf: seq<byte>, q: nat, c: nat)
    requires q <= |buf| && 0 < c < |buf| && StringAt(buf, q) == c - 1
    requires buf[c - 1] == COLON && !IsWs(buf[c])
    ensures ObjectItems(buf, q) == ObjectRest(buf, c)
  {
    assert WsEnd(buf, c - 1) == c - 1;
    assert WsEnd(buf, c) == c;
  }

  lemma ItemStep(buf: seq<byte>, q: nat, e: nat)
    requires q < |buf| && ValueEnd(buf, q) == e && e < |buf|
    requires buf[e] == RBRACKET || buf[e] == COMMA
    ensures buf[e] == RBRACKET ==> ArrayItems(buf, q) == e + 1
    ensures buf[e] == COMMA ==> ArrayItems(buf, q) == ArrayItems(buf, e + 1)
  {
    assert WsEnd(buf, e) == e;
  }

  lemma RestStep(buf: seq<byte>, c: nat, e: nat)
    requires c < |buf| && ValueEnd(buf, c) == e && e < |buf|
    requires buf[e] == RBRACE || buf[e] == COMMA
    ensures buf[e] == RBRACE ==> ObjectRest(buf, c) == e + 1
    ensures buf[e] == COMMA ==> ObjectRest(buf, c) == ObjectItems(buf, e + 1)
  {
    assert WsEnd(buf, e) == e;
  }

  lemma FindStep(buf: seq<byte>, q: nat, c: nat, e: nat, s: seq<byte>)
    requires q < |buf| && buf[q] == QUOTE && 0 < c < |buf| && MatchScan(buf, q + 1, s, 0, true).0 == c - 1
    requires buf[c - 1] == COLON && !IsWs(buf[c])
    requires ValueEnd(buf, c) == e && e < |buf| && (buf[e] == RBRACE || buf[e] == COMMA)
    ensures MatchScan(buf, q + 1, s, 0, true).1 ==> FindMembers(buf, q, s) == c
    ensures !MatchScan(buf, q + 1, s, 0, true).1 && buf[e] == RBRACE ==> FindMembers(buf, q, s) == |buf|
    ensures !MatchScan(buf, q + 1, s, 0, true).1 && buf[e] == COMMA ==> FindMembers(buf, q, s) == FindMembers(buf, e + 1, s)
  {
    var m := MatchScan(buf, q + 1, s, 0, true);
    assert FindMembers(buf, q, s) == FindValue(buf, m, s) by {
      assert WsEnd(buf, q) == q;
    }
    FindValueStep(buf, m, c, e, s);
  }

  /** The rest of the turn, after the name that ended at m.0. */
  lemma FindValueStep(buf: seq<byte>, m: (nat, bool), c: nat, e: nat, s: seq<byte>)
    requires 0 < c < |buf| && m.0 == c - 1 && buf[c - 1] == COLON && !IsWs(buf[c])
    requires ValueEnd(buf, c) == e && e < |buf| && (buf[e] == RBRACE || buf[e] == COMMA)
    ensures m.1 ==> FindValue(buf, m, s) == c
    ensures !m.1 && buf[e] == RBRACE ==> FindValue(buf, m, s) == |buf|
    ensures !m.1 && buf[e] == COMMA ==> FindValue(buf, m, s) == FindMembers(buf, e + 1, s)
  {
    assert WsEnd(buf, c - 1) == c - 1;
    assert WsEnd(buf, c) == c;
    assert WsEnd(buf, e) == e;
  }


  /**
   * The byte positions in the first member's text: the name from q, the
   * colon before c, and the value from c to e, where the '}' or the ','
   * before the other members comes.
   */
  lemma MemberFront(buf: seq<byte>, q: nat, ms: seq<Member>) returns (c: nat, e: nat)
    requires ms != [] && MembersOk(ms) && At(buf, q, MembersText(ms) + [RBRACE])
    ensures UnitsOk(ms[0].name) && ValueOk(ms[0].value) && MembersOk(ms[1..])
    ensures q < |buf| && buf[q] == QUOTE && At(buf, q, StrText(ms[0].name))
    ensures c == q + |StrText(ms[0].name)| + 1 && StringAt(buf, q) == c - 1 && c - 1 < |buf| && buf[c - 1] == COLON
    ensures At(buf, c, Text(ms[0].value)) && e == c + |Text(ms[0].value)|
    ensures At(buf, e, MembersAfter(ms)) && e + |MembersAfter(ms)| == q + |MembersText(ms)| + 1
  {
    var m := ms[0];
    var a := MembersAfter(ms);
    MembersTail(ms);
    assert At(buf, q, MemberText(m)) && At(buf, q + |MemberText(m)|, a) && |MembersText(ms)| + 1 == |MemberText(m)| + |a| by {
      MembersCons(ms);
      AtSplit(buf, q, MemberText(m), a);
    }
    c := MemberAt(buf, q, m);
    e := c + |Text(m.value)|;
    assert q < |buf| && buf[q] == QUOTE by {
      AtFirst(buf, q, StrText(m.name));
    }
  }

  /** From c, skip_value goes to e, where the '}' or a ',' and the other members are. */
  lemma MemberBack(buf: seq<byte>, c: nat, e: nat, ms: seq<Member>)
    requires ms != [] && ValueOk(ms[0].value) && At(buf, c, Text(ms[0].value)) && e == c + |Text(ms[0].value)|
    requires At(buf, e, MembersAfter(ms))
    ensures c < |buf| && !IsWs(buf[c]) && ValueEnd(buf, c) == e && e < |buf|
    ensures |ms| == 1 ==> buf[e] == RBRACE && |MembersAfter(ms)| == 1
    ensures |ms| > 1 ==> buf[e] == COMMA && At(buf, e + 1, MembersText(ms[1..]) + [RBRACE])
    ensures |ms| > 1 ==> |MembersAfter(ms)| == |MembersText(ms[1..])| + 2
    decreases ms, 0
  {
    var a := MembersAfter(ms);
    assert e < |buf| && buf[e] == a[0] by {
      AtFirst(buf, e, a);
    }
    assert c < |buf| && !IsWs(buf[c]) by {
      TextStart(ms[0].value);
      AtFirst(buf, c, Text(ms[0].value));
    }
    ValueText(buf, c, ms[0].value);
    if |ms| > 1 {
      var b := MembersText(ms[1..]) + [RBRACE];
      assert a == [COMMA] + b;
      AtSplit(buf, e, [COMMA], b);
    }
  }

  /** The loop of skip_object goes past the members and the closing brace. */
  lemma {:induction false} MembersEnd(buf: seq<byte>, q: nat, ms: seq<Member>)
    requires ms != [] && MembersOk(ms) && At(buf, q, MembersText(ms) + [RBRACE])
    ensures ObjectItems(buf, q) == q + |MembersText(ms)| + 1
    decreases ms, 2
  {
    var e := MemberStep(buf, q, ms);
    if |ms| > 1 {
      MembersEnd(buf, e + 1, ms[1..]);
    }
  }

  /** One turn of skip_object's loop, over the first member. */
  lemma MemberStep(buf: seq<byte>, q: nat, ms: seq<Member>) returns (e: nat)
    requires ms != [] && MembersOk(ms) && At(buf, q, MembersText(ms) + [RBRACE])
    ensures |ms| == 1 ==> ObjectItems(buf, q) == q + |MembersText(ms)| + 1
    ensures |ms| > 1 ==> e < |buf| && MembersOk(ms[1..]) && At(buf, e + 1, MembersText(ms[1..]) + [RBRACE])
    ensures |ms| > 1 ==> ObjectItems(buf, q) == ObjectItems(buf, e + 1) && e + 1 + |MembersText(ms[1..])| == q + |MembersText(ms)|
    decreases ms, 1
  {
    var c;
    c, e := MemberFront(buf, q, ms);
    MemberBack(buf, c, e, ms);
    ItemsStep(buf, q, c);
    RestStep(buf, c, e);
  }

  /** match_str on a member's name: it ends past the closing quote, and matches s exactly when the name is s. */
  lemma NameAt(buf: seq<byte>, q: nat, us: seq<Unit>, s: seq<byte>)
    requires UnitsOk(us) && At(buf, q, StrText(us))
    ensures MatchScan(buf, q + 1, s, 0, true) == (q + |StrText(us)|, NameIs(us, s))
  {
    assert StrText(us) == [QUOTE] + (UnitsText(us) + [QUOTE]);
    AtSplit(buf, q, [QUOTE], UnitsText(us) + [QUOTE]);
    MatchText(buf, q + 1, us, s, 0, true);
    assert s[0..] == s;
  }

  /**
   * json_find on an object's text returns the position of the value of the
   * first member whose name is s, and the end when no name is s.
   */
  lemma FindText(buf: seq<byte>, p: nat, ms: seq<Member>, s: seq<byte>)
    requires ValueOk(Object(ms)) && At(buf, p, Text(Object(ms)))
    ensures FirstNamed(ms, s) == |ms| ==> FindAt(buf, p, s) == |buf|
    ensures FirstNamed(ms, s) < |ms| ==> FindAt(buf, p, s) < |buf| && At(buf, FindAt(buf, p, s), Text(ms[FirstNamed(ms, s)].value))
  {
    FindEntry(buf, p, ms, s);
    var f := FirstNamed(ms, s);
    if f < |ms| {
      FindPresent(buf, p + 1, ms, s);
      var r := FindMembers(buf, p + 1, s);
      assert FindAt(buf, p, s) == r < |buf|;
      assert At(buf, r, Text(ms[f].value));
    } else {
      FindMissing(buf, p + 1, ms, s);
      assert FindAt(buf, p, s) == FindMembers(buf, p + 1, s) == |buf|;
    }
  }

  /** json_find enters the object's members after the '{'. */
  lemma FindEntry(buf: seq<byte>, p: nat, ms: seq<Member>, s: seq<byte>)
    requires ValueOk(Object(ms)) && At(buf, p, Text(Object(ms)))
    ensures MembersOk(ms) && At(buf, p + 1, MembersText(ms) + [RBRACE])
    ensures FindAt(buf, p, s) == FindMembers(buf, p + 1, s)
  {
    assert Text(Object(ms)) == [LBRACE] + (MembersText(ms) + [RBRACE]);
    AtSplit(buf, p, [LBRACE], MembersText(ms) + [RBRACE]);
    AtFirst(buf, p, Text(Object(ms)));
    assert WsEnd(buf, p) == p;
  }

  /** json_find's loop stops at a '}' where a name would start. */
  lemma FindClose(buf: seq<byte>, q: nat, s: seq<byte>)
    requires q < |buf| && buf[q] == RBRACE
    ensures FindMembers(buf, q, s) == |buf|
  {
    assert WsEnd(buf, q) == q;
  }

  /** One turn of json_find's loop, over the first member. */
  lemma FindHead(buf: seq<byte>, q: nat, ms: seq<Member>, s: seq<byte>) returns (e: nat)
    requires ms != [] && MembersOk(ms) && At(buf, q, MembersText(ms) + [RBRACE])
    ensures NameIs(ms[0].name, s) ==> FindMembers(buf, q, s) < |buf| && At(buf, FindMembers(buf, q, s), Text(ms[0].value))
    ensures !NameIs(ms[0].name, s) && |ms| == 1 ==> FindMembers(buf, q, s) == |buf|
    ensures !NameIs(ms[0].name, s) && |ms| > 1 ==> e < |buf| && FindMembers(buf, q, s) == FindMembers(buf, e + 1, s)
    ensures |ms| > 1 ==> e < |buf| && MembersOk(ms[1..]) && At(buf, e + 1, MembersText(ms[1..]) + [RBRACE])
  {
    var c;
    c, e := MemberFront(buf, q, ms);
    MemberBack(buf, c, e, ms);
    assert MatchScan(buf, q + 1, s, 0, true) == (c - 1, NameIs(ms[0].name, s)) by {
      NameAt(buf, q, ms[0].name, s);
    }
    FindStep(buf, q, c, e, s);
  }

  /** json_find's loop over members none of which is named s reaches the end. */
  lemma {:induction false} FindMissing(buf: seq<byte>, q: nat, ms: seq<Member>, s: seq<byte>)
    requires MembersOk(ms) && At(buf, q, MembersText(ms) + [RBRACE]) && FirstNamed(ms, s) == |ms|
    ensures FindMembers(buf, q, s) == |buf|
    decreases |ms|
  {
    if ms == [] {
      AtFirst(buf, q, MembersText(ms) + [RBRACE]);
      FindClose(buf, q, s);
    } else {
      var e := FindHead(buf, q, ms, s);
      assert !NameIs(ms[0].name, s);
      if |ms| > 1 {
        assert FirstNamed(ms[1..], s) == |ms[1..]|;
        FindMissing(buf, e + 1, ms[1..], s);
      }
    }
  }

  /** json_find's loop stops at the value of the first member named s. */
  lemma {:induction false} FindPresent(buf: seq<byte>, q: nat, ms: seq<Member>, s: seq<byte>)
    requires MembersOk(ms) && At(buf, q, MembersText(ms) + [RBRACE]) && FirstNamed(ms, s) < |ms|
    ensures FindMembers(buf, q, s) < |buf| && At(buf, FindMembers(buf, q, s), Text(ms[FirstNamed(ms, s)].value))
    decreases |ms|, 1
  {
    var e := FindHead(buf, q, ms, s);
    if !NameIs(ms[0].name, s) {
      assert |ms| > 1 && FirstNamed(ms, s) == 1 + FirstNamed(ms[1..], s);
      FindLater(buf, e, ms, s);
    }
  }

  /** When the first member is not the one, json_find finds it among the members past the comma at e. */
  lemma {:induction false} FindLater(buf: seq<byte>, e: nat, ms: seq<Member>, s: seq<byte>)
    requires |ms| > 1 && MembersOk(ms[1..]) && FirstNamed(ms, s) == 1 + FirstNamed(ms[1..], s) < |ms|
    requires e < |buf| && At(buf, e + 1, MembersText(ms[1..]) + [RBRACE])
    ensures FindMembers(buf, e + 1, s) < |buf| && At(buf, FindMembers(buf, e + 1, s), Text(ms[FirstNamed(ms, s)].value))
    decreases |ms|, 0
  {
    var rest := ms[1..];
    FindPresent(buf, e + 1, rest, s);
    assert ms[FirstNamed(ms, s)] == rest[FirstNamed(rest, s)];
  }
}
