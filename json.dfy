/**
 * The JSON scanner (libcperciva/util/json.c): json_find looks through the
 * top-level object of a JSON text for a member with a given name and
 * returns the position of its value, skipping the other values without
 * building them.  Positions are indices into buf, and the end of the
 * buffer is |buf|; every routine returns the end when it meets text it
 * cannot continue with.
 *
 * Each routine of the source is a method with its loop, specified by the
 * function beside it that computes the same position one step at a time;
 * what those functions mean on JSON text is proved in JsonGrammar.
 */
module Json {
  import opened Bytes

  const TAB: byte := 0x09
  const LF: byte := 0x0A
  const CR: byte := 0x0D
  const SPACE: byte := 0x20
  const QUOTE: byte := 0x22
  const COMMA: byte := 0x2C
  const COLON: byte := 0x3A
  const LBRACKET: byte := 0x5B
  const BACKSLASH: byte := 0x5C
  const RBRACKET: byte := 0x5D
  const LBRACE: byte := 0x7B
  const RBRACE: byte := 0x7D
  const LOWER_F: byte := 0x66
  const LOWER_N: byte := 0x6E
  const LOWER_T: byte := 0x74
  const LOWER_U: byte := 0x75

  /** The literals "false", "null" and "true". */
  const FALSE: seq<byte> := [0x66, 0x61, 0x6C, 0x73, 0x65]
  const NULL: seq<byte> := [0x6E, 0x75, 0x6C, 0x6C]
  const TRUE: seq<byte> := [0x74, 0x72, 0x75, 0x65]

  /** The whitespace of JSON: tab, line feed, carriage return and space. */
  predicate IsWs(c: byte)
  {
    c == TAB || c == LF || c == CR || c == SPACE
  }

  /**
   * strchr(numchars, c) != NULL: one of "+-0123456789.eE", or the NUL
   * byte, which strchr finds as the string's terminator.
   */
  predicate IsNumChar(c: byte)
  {
    c == 0 || c == 0x2B || c == 0x2D || c == 0x2E || 0x30 <= c <= 0x39 || c == 0x45 || c == 0x65
  }

  /** The escapes match_str decodes to one character: \" \\ \/ \b \f \n \r \t. */
  predicate IsSimpleEscape(e: byte)
  {
    e == QUOTE || e == BACKSLASH || e == 0x2F || e == 0x62 || e == 0x66 || e == 0x6E || e == 0x72 || e == 0x74
  }

  /** The character a simple escape stands for. */
  function EscapeValue(e: byte): (c: byte)
    requires IsSimpleEscape(e)
    ensures c != 0
  {
    if e == 0x62 then 0x08
    else if e == 0x66 then 0x0C
    else if e == 0x6E then 0x0A
    else if e == 0x72 then 0x0D
    else if e == 0x74 then 0x09
    else e
  }

  /** buf holds x at position p, byte by byte. */
  predicate At(buf: seq<byte>, p: nat, x: seq<byte>)
  {
    p + |x| <= |buf| && forall i {:trigger ByteOf(x, i)} :: 0 <= i < |x| ==> buf[p + i] == ByteOf(x, i)
  }

  /** The byte of x at i; At's comparisons are stated through it. */
  function ByteOf(x: seq<byte>, i: nat): byte
    requires i < |x|
  {
    x[i]
  }

  /** At is the slice of buf from p being x. */
  lemma AtSlice(buf: seq<byte>, p: nat, x: seq<byte>)
    ensures At(buf, p, x) <==> p + |x| <= |buf| && buf[p..p + |x|] == x
  {
    if p + |x| <= |buf| && buf[p..p + |x|] == x {
      forall i | 0 <= i < |x| ensures buf[p + i] == ByteOf(x, i) {
        assert buf[p..p + |x|][i] == buf[p + i];
      }
    }
    if At(buf, p, x) {
      forall i | 0 <= i < |x| ensures buf[p..p + |x|][i] == x[i] {
        assert buf[p + i] == ByteOf(x, i);
      }
    }
  }

  /* The positions the routines return. */

  /** skip_ws: the first position from p on that is not whitespace, or the end (WsEndSpec). */
  function WsEnd(buf: seq<byte>, p: nat): (r: nat)
    requires p <= |buf|
    ensures p <= r <= |buf|
    decreases |buf| - p
  {
    if p < |buf| && IsWs(buf[p]) then WsEnd(buf, p + 1) else p
  }

  /** skip_ws skips whitespace only, all of it, and stops at the end. */
  lemma {:induction false} WsEndSpec(buf: seq<byte>, p: nat)
    requires p <= |buf|
    ensures forall i :: p <= i < WsEnd(buf, p) ==> IsWs(buf[i])
    ensures WsEnd(buf, p) == |buf| || !IsWs(buf[WsEnd(buf, p)])
    decreases |buf| - p
  {
    if p < |buf| && IsWs(buf[p]) {
      WsEndSpec(buf, p + 1);
    }
  }

  /** skip_number: the first position from p on that cannot be in a number, or the end (NumberEndSpec). */
  function NumberEnd(buf: seq<byte>, p: nat): (r: nat)
    requires p <= |buf|
    ensures p <= r <= |buf|
    decreases |buf| - p
  {
    if p < |buf| && IsNumChar(buf[p]) then NumberEnd(buf, p + 1) else p
  }

  /** skip_number skips the characters of numbers only, all of them, and stops at the end. */
  lemma {:induction false} NumberEndSpec(buf: seq<byte>, p: nat)
    requires p <= |buf|
    ensures forall i :: p <= i < NumberEnd(buf, p) ==> IsNumChar(buf[i])
    ensures NumberEnd(buf, p) == |buf| || !IsNumChar(buf[NumberEnd(buf, p)])
    decreases |buf| - p
  {
    if p < |buf| && IsNumChar(buf[p]) {
      NumberEndSpec(buf, p + 1);
    }
  }

  /** skip_literal: past "false", "null" or "true" at p, and otherwise the end (LiteralEndSpec). */
  function LiteralEnd(buf: seq<byte>, p: nat): (r: nat)
    requires p <= |buf|
    ensures r <= |buf|
  {
    if |buf| - p >= 5 && buf[p..p + 5] == FALSE then p + 5
    else if |buf| - p >= 4 && buf[p..p + 4] == NULL then p + 4
    else if |buf| - p >= 4 && buf[p..p + 4] == TRUE then p + 4
    else |buf|
  }

  /** skip_literal consumes exactly one of the three literals, and returns the end when none is at p. */
  lemma LiteralEndSpec(buf: seq<byte>, p: nat)
    requires p <= |buf|
    ensures At(buf, p, FALSE) ==> LiteralEnd(buf, p) == p + 5
    ensures At(buf, p, NULL) ==> LiteralEnd(buf, p) == p + 4
    ensures At(buf, p, TRUE) ==> LiteralEnd(buf, p) == p + 4
    ensures LiteralEnd(buf, p) != |buf| ==> At(buf, p, FALSE) || At(buf, p, NULL) || At(buf, p, TRUE)
  {
    AtSlice(buf, p, FALSE);
    AtSlice(buf, p, NULL);
    AtSlice(buf, p, TRUE);
    if At(buf, p, FALSE) {
      assert buf[p] == FALSE[0];
    } else if At(buf, p, NULL) {
      assert buf[p] == NULL[0];
    }
  }

  /**
   * The loop of skip_string from q, just after the opening quote: past the
   * closing quote, over a backslash and the character after it, and over
   * four more after \u; it stops at the end, or where an escape is cut off.
   */
  function StringEnd(buf: seq<byte>, q: nat): (r: nat)
    requires q <= |buf|
    ensures q <= r <= |buf|
    decreases |buf| - q
  {
    if q == |buf| then q
    else if buf[q] == QUOTE then q + 1
    else if buf[q] == BACKSLASH then
      if q + 1 == |buf| then q + 1
      else if buf[q + 1] == LOWER_U then
        if |buf| - (q + 2) < 4 then q + 2 else StringEnd(buf, q + 6)
      else StringEnd(buf, q + 2)
    else StringEnd(buf, q + 1)
  }

  /** skip_string: past the byte at p, taken as the opening quote, and the string after it; the end when p is the end. */
  function StringAt(buf: seq<byte>, p: nat): (r: nat)
    requires p <= |buf|
    ensures p <= r <= |buf| && (p < |buf| ==> p < r)
  {
    if p == |buf| then p else StringEnd(buf, p + 1)
  }

  /**
   * skip_string as written: it steps over the opening quote before looking
   * at the end, so called at the end it returns one past it.
   */
  function StringAtAsWritten(buf: seq<byte>, p: nat): (r: nat)
    requires p <= |buf|
    ensures p < |buf| ==> r == StringAt(buf, p)
    ensures p == |buf| ==> r == |buf| + 1
  {
    if p == |buf| then p + 1 else StringEnd(buf, p + 1)
  }

  /**
   * skip_object reaches skip_string at the end of the buffer after a
   * trailing comma: for {"a":1, the loop comes back with nothing left, and
   * skip_string as written then points past the buffer, where skip_object
   * goes on to read.
   */
  lemma TrailingCommaOverrun()
    ensures var buf: seq<byte> := [LBRACE, QUOTE, 0x61, QUOTE, COLON, 0x31, COMMA];
      ObjectEnd(buf, 0) == ObjectItems(buf, |buf|) && StringAtAsWritten(buf, |buf|) > |buf|
  {
    var buf: seq<byte> := [LBRACE, QUOTE, 0x61, QUOTE, COLON, 0x31, COMMA];
    assert WsEnd(buf, 1) == 1;
    assert StringAt(buf, 1) == 4 by {
      assert StringEnd(buf, 2) == StringEnd(buf, 3) == 4;
    }
    assert WsEnd(buf, 4) == 4 && WsEnd(buf, 5) == 5;
    assert ObjectItems(buf, 1) == ObjectRest(buf, 5);
    assert ValueEnd(buf, 5) == 6 by {
      assert NumberEnd(buf, 6) == 6;
    }
    assert WsEnd(buf, 6) == 6;
  }

  /** skip_value: past the value at p, chosen by its first byte; the end when no value can start there. */
  function ValueEnd(buf: seq<byte>, p: nat): (r: nat)
    requires p <= |buf|
    ensures p <= r <= |buf|
    decreases |buf| - p, 1
  {
    if p == |buf| then p
    else if buf[p] == LOWER_F || buf[p] == LOWER_N || buf[p] == LOWER_T then LiteralEnd(buf, p)
    else if buf[p] == QUOTE then StringAt(buf, p)
    else if buf[p] == LBRACKET then ArrayEnd(buf, p)
    else if buf[p] == LBRACE then ObjectEnd(buf, p)
    else if IsNumChar(buf[p]) then NumberEnd(buf, p)
    else |buf|
  }

  /** skip_array: past the '[' at p, then "]" after whitespace, or the elements. */
  function ArrayEnd(buf: seq<byte>, p: nat): (r: nat)
    requires p < |buf|
    ensures p <= r <= |buf|
    decreases |buf| - p, 0
  {
    var q := WsEnd(buf, p + 1);
    if q == |buf| then |buf|
    else if buf[q] == RBRACKET then q + 1
    else ArrayItems(buf, q)
  }

  /** The loop of skip_array from q: a value and whitespace, then ']' ends the array and ',' goes on to the next. */
  function ArrayItems(buf: seq<byte>, q: nat): (r: nat)
    requires q <= |buf|
    ensures q <= r <= |buf|
    decreases |buf| - q, 2
  {
    var b := WsEnd(buf, ValueEnd(buf, q));
    if b == |buf| then |buf|
    else if buf[b] == RBRACKET then b + 1
    else if buf[b] != COMMA then |buf|
    else ArrayItems(buf, b + 1)
  }

  /** skip_object: past the '{' at p, then "}" after whitespace, or the members. */
  function ObjectEnd(buf: seq<byte>, p: nat): (r: nat)
    requires p < |buf|
    ensures p <= r <= |buf|
    decreases |buf| - p, 0
  {
    var q := WsEnd(buf, p + 1);
    if q == |buf| then |buf|
    else if buf[q] == RBRACE then q + 1
    else ObjectItems(buf, q)
  }

  /** The loop of skip_object from q: a string and whitespace, then ':' and whitespace before the value. */
  function ObjectItems(buf: seq<byte>, q: nat): (r: nat)
    requires q <= |buf|
    ensures q <= r <= |buf|
    decreases |buf| - q, 3
  {
    var b := WsEnd(buf, StringAt(buf, q));
    if b == |buf| || buf[b] != COLON then |buf|
    else ObjectRest(buf, WsEnd(buf, b + 1))
  }

  /** The rest of skip_object's loop from the value at c: the value and whitespace, then '}' ends the object and ',' goes on. */
  function ObjectRest(buf: seq<byte>, c: nat): (r: nat)
    requires c <= |buf|
    ensures c <= r <= |buf|
    decreases |buf| - c, 2
  {
    var e := WsEnd(buf, ValueEnd(buf, c));
    if e == |buf| then |buf|
    else if buf[e] == RBRACE then e + 1
    else if buf[e] != COMMA then |buf|
    else ObjectItems(buf, e + 1)
  }

  /** The comparison of match_str: s[i] is c, with the NUL after the end of s when i is |s|. */
  predicate Matches(s: seq<byte>, i: nat, c: byte)
    requires i <= |s|
  {
    if i < |s| then s[i] == c else c == 0
  }

  /** The target moves on unless it is at its terminating NUL. */
  function Advance(s: seq<byte>, i: nat): nat
    requires i <= |s|
  {
    if i < |s| then i + 1 else i
  }

  /**
   * The loop of match_str from q, with the target at i and foundit f: each
   * character of the string, decoded from its escape, is compared with the
   * target's; \u makes the match fail, an unknown escape ends the scan at
   * the end, and at the closing quote all of the target must be used.
   */
  function MatchScan(buf: seq<byte>, q: nat, s: seq<byte>, i: nat, f: bool): (r: (nat, bool))
    requires q <= |buf| && i <= |s|
    ensures q <= r.0 <= |buf|
    ensures !f ==> !r.1
    decreases |buf| - q
  {
    if q == |buf| then (q, f)
    else if buf[q] == QUOTE then (q + 1, f && i == |s|)
    else if buf[q] == BACKSLASH then
      if q + 1 == |buf| then (q + 1, f)
      else if IsSimpleEscape(buf[q + 1]) then
        MatchScan(buf, q + 2, s, Advance(s, i), f && Matches(s, i, EscapeValue(buf[q + 1])))
      else if buf[q + 1] == LOWER_U then
        if |buf| - (q + 2) < 4 then (|buf|, f) else MatchScan(buf, q + 6, s, Advance(s, i), false)
      else (|buf|, false)
    else MatchScan(buf, q + 1, s, Advance(s, i), f && Matches(s, i, buf[q]))
  }

  /** json_find: after whitespace and '{', the members. */
  function FindAt(buf: seq<byte>, p: nat, s: seq<byte>): (r: nat)
    requires p <= |buf|
    ensures r <= |buf|
  {
    var a := WsEnd(buf, p);
    if a == |buf| || buf[a] != LBRACE then |buf| else FindMembers(buf, a + 1, s)
  }

  /** The loop of json_find from q: a name after whitespace and '"'. */
  function FindMembers(buf: seq<byte>, q: nat, s: seq<byte>): (r: nat)
    requires q <= |buf|
    ensures r <= |buf|
    decreases |buf| - q, 1
  {
    var b := WsEnd(buf, q);
    if b == |buf| || buf[b] != QUOTE then |buf|
    else FindValue(buf, MatchScan(buf, b + 1, s, 0, true), s)
  }

  /**
   * The rest of json_find's loop after a name that ended at m.0 and
   * matched if m.1: ':' after whitespace, then the position of the value
   * after whitespace if the name matched, and otherwise past the value and
   * a ',' to the next name.
   */
  function FindValue(buf: seq<byte>, m: (nat, bool), s: seq<byte>): (r: nat)
    requires m.0 <= |buf|
    ensures r <= |buf|
    decreases |buf| - m.0, 0
  {
    var d := WsEnd(buf, m.0);
    if d == |buf| || buf[d] != COLON then |buf|
    else
      var e := WsEnd(buf, d + 1);
      if m.1 then e
      else
        var g := WsEnd(buf, ValueEnd(buf, e));
        if g == |buf| || buf[g] != COMMA then |buf| else FindMembers(buf, g + 1, s)
  }

  /* The routines. */

  /** skip_ws. */
  method SkipWs(buf: seq<byte>, p: nat) returns (r: nat)
    requires p <= |buf|
    ensures r == WsEnd(buf, p)
  {
    r := p;
    while r < |buf| && IsWs(buf[r])
      invariant p <= r <= |buf| && WsEnd(buf, r) == WsEnd(buf, p)
      decreases |buf| - r
    {
      r := r + 1;
    }
  }

  /** skip_number. */
  method SkipNumber(buf: seq<byte>, p: nat) returns (r: nat)
    requires p <= |buf|
    ensures r == NumberEnd(buf, p)
  {
    r := p;
    while r < |buf| && IsNumChar(buf[r])
      invariant p <= r <= |buf| && NumberEnd(buf, r) == NumberEnd(buf, p)
      decreases |buf| - r
    {
      r := r + 1;
    }
  }

  /** skip_string, which returns the end when it is called at the end. */
  method SkipString(buf: seq<byte>, p: nat) returns (r: nat)
    requires p <= |buf|
    ensures r == StringAt(buf, p)
  {
    if p == |buf| {
      return p;
    }
    r := p + 1;
    while r < |buf|
      invariant p < r <= |buf| && StringEnd(buf, r) == StringAt(buf, p)
      decreases |buf| - r
    {
      var ch := buf[r];
      r := r + 1;
      if ch == QUOTE {
        return;
      }
      if ch == BACKSLASH {
        if r == |buf| {
          return;
        }
        var e := buf[r];
        r := r + 1;
        if e == LOWER_U {
          if |buf| - r < 4 {
            return;
          }
          r := r + 4;
        }
      }
    }
  }

  /** skip_value. */
  method SkipValue(buf: seq<byte>, p: nat) returns (r: nat)
    requires p <= |buf|
    ensures r == ValueEnd(buf, p)
    decreases |buf| - p, 1
  {
    if p == |buf| {
      return p;
    }
    var c := buf[p];
    if c == LOWER_F || c == LOWER_N || c == LOWER_T {
      r := LiteralEnd(buf, p);
    } else if c == QUOTE {
      r := SkipString(buf, p);
    } else if c == LBRACKET {
      r := SkipArray(buf, p);
    } else if c == LBRACE {
      r := SkipObject(buf, p);
    } else if IsNumChar(c) {
      r := SkipNumber(buf, p);
    } else {
      r := |buf|;
    }
  }

  /** skip_array, called at a '['. */
  method SkipArray(buf: seq<byte>, p: nat) returns (r: nat)
    requires p < |buf|
    ensures r == ArrayEnd(buf, p)
    decreases |buf| - p, 0
  {
    var q := SkipWs(buf, p + 1);
    if q == |buf| {
      return |buf|;
    }
    if buf[q] == RBRACKET {
      return q + 1;
    }
    while true
      invariant p < q <= |buf| && ArrayItems(buf, q) == ArrayEnd(buf, p)
      decreases |buf| - q
    {
      var a := SkipValue(buf, q);
      var b := SkipWs(buf, a);
      if b == |buf| {
        return |buf|;
      }
      if buf[b] == RBRACKET {
        return b + 1;
      }
      if buf[b] != COMMA {
        return |buf|;
      }
      q := b + 1;
    }
  }

  /** skip_object, called at a '{'. */
  method SkipObject(buf: seq<byte>, p: nat) returns (r: nat)
    requires p < |buf|
    ensures r == ObjectEnd(buf, p)
    decreases |buf| - p, 0
  {
    var q := SkipWs(buf, p + 1);
    if q == |buf| {
      return |buf|;
    }
    if buf[q] == RBRACE {
      return q + 1;
    }
    while true
      invariant p < q <= |buf| && ObjectItems(buf, q) == ObjectEnd(buf, p)
      decreases |buf| - q
    {
      var done;
      done, r := ObjectMember(buf, q);
      if done {
        return;
      }
      q := r;
    }
  }

  /**
   * One pass of skip_object's loop from q: the object's end, or, when a
   * ',' follows the value, the position after it.
   */
  method ObjectMember(buf: seq<byte>, q: nat) returns (done: bool, r: nat)
    requires q <= |buf|
    ensures done ==> r == ObjectItems(buf, q)
    ensures !done ==> q < r <= |buf| && ObjectItems(buf, r) == ObjectItems(buf, q)
    decreases |buf| - q, 2
  {
    var a := SkipString(buf, q);
    var b := SkipWs(buf, a);
    if b == |buf| || buf[b] != COLON {
      return true, |buf|;
    }
    var c := SkipWs(buf, b + 1);
    assert ObjectRest(buf, c) == ObjectItems(buf, q);
    var d := SkipValue(buf, c);
    var e := SkipWs(buf, d);
    if e == |buf| {
      return true, |buf|;
    }
    if buf[e] == RBRACE {
      return true, e + 1;
    }
    if buf[e] != COMMA {
      return true, |buf|;
    }
    return false, e + 1;
  }

  /** match_str from q, just after the opening quote, for the C string s: the position after the string and foundit. */
  method MatchStr(buf: seq<byte>, q: nat, s: seq<byte>) returns (r: nat, found: bool)
    requires q <= |buf|
    ensures (r, found) == MatchScan(buf, q, s, 0, true)
  {
    var i: nat := 0;
    found := true;
    r := q;
    while true
      invariant q <= r <= |buf| && i <= |s| && MatchScan(buf, r, s, i, found) == MatchScan(buf, q, s, 0, true)
      decreases |buf| - r
    {
      if r == |buf| {
        return;
      }
      var ch := buf[r];
      r := r + 1;
      if ch == QUOTE {
        if i < |s| {
          found := false;
        }
        return;
      }
      if ch == BACKSLASH {
        if r == |buf| {
          return;
        }
        var e := buf[r];
        r := r + 1;
        if IsSimpleEscape(e) {
          ch := EscapeValue(e);
        } else if e == LOWER_U {
          if |buf| - r < 4 {
            return |buf|, found;
          }
          found := false;
          r := r + 4;
        } else {
          return |buf|, false;
        }
      }
      if !Matches(s, i, ch) {
        found := false;
      }
      i := Advance(s, i);
    }
  }

  /** json_find: the position of the value of the member named s of the object at p, or the end. */
  method JsonFind(buf: seq<byte>, p: nat, s: seq<byte>) returns (r: nat)
    requires p <= |buf|
    ensures r == FindAt(buf, p, s)
  {
    var q := SkipWs(buf, p);
    if q == |buf| || buf[q] != LBRACE {
      return |buf|;
    }
    q := q + 1;
    while true
      invariant q <= |buf| && FindMembers(buf, q, s) == FindAt(buf, p, s)
      decreases |buf| - q
    {
      var done;
      done, r := FindMember(buf, q, s);
      if done {
        return;
      }
      q := r;
    }
  }

  /**
   * One pass of json_find's loop from q: the answer, or, when the name
   * did not match and a ',' follows the value, the position after it.
   */
  method FindMember(buf: seq<byte>, q: nat, s: seq<byte>) returns (done: bool, r: nat)
    requires q <= |buf|
    ensures done ==> r == FindMembers(buf, q, s)
    ensures !done ==> q < r <= |buf| && FindMembers(buf, r, s) == FindMembers(buf, q, s)
  {
    var b := SkipWs(buf, q);
    if b == |buf| || buf[b] != QUOTE {
      return true, |buf|;
    }
    var c, found := MatchStr(buf, b + 1, s);
    assert FindValue(buf, (c, found), s) == FindMembers(buf, q, s);
    done, r := AfterName(buf, c, found, s);
  }

  /** The rest of a pass of json_find's loop, after a name that ended at c. */
  method AfterName(buf: seq<byte>, c: nat, found: bool, s: seq<byte>) returns (done: bool, r: nat)
    requires c <= |buf|
    ensures done ==> r == FindValue(buf, (c, found), s)
    ensures !done ==> c < r <= |buf| && FindMembers(buf, r, s) == FindValue(buf, (c, found), s)
  {
    var d := SkipWs(buf, c);
    if d == |buf| || buf[d] != COLON {
      return true, |buf|;
    }
    r := SkipWs(buf, d + 1);
    if found {
      return true, r;
    }
    var v := SkipValue(buf, r);
    var g := SkipWs(buf, v);
    if g == |buf| || buf[g] != COMMA {
      return true, |buf|;
    }
    return false, g + 1;
  }
}
