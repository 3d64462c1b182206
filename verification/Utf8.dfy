/**
 UTF-8 (section 3 of RFC 3629) and the byte order of encoded text, which is the
 order of its code points (section 1 of RFC 3629).
 */
module Utf8 {
  import opened Bytes

  function EncodeChar(c: char): (bytes: seq<Byte>)
    ensures 1 <= |bytes| <= 4
  {
    var n := c as int;
    if n < 0x80 then [n]
    else if n < 0x800 then [0xC0 + n / 0x40, 0x80 + n % 0x40]
    else if n < 0x10000 then [0xE0 + n / 0x1000, 0x80 + n / 0x40 % 0x40, 0x80 + n % 0x40]
    else [0xF0 + n / 0x40000, 0x80 + n / 0x1000 % 0x40, 0x80 + n / 0x40 % 0x40, 0x80 + n % 0x40]
  }

  function Encode(s: string): seq<Byte> {
    if s == "" then [] else EncodeChar(s[0]) + Encode(s[1..])
  }

  /** Lexicographic order, a proper prefix first. */
  predicate BytesLess(a: seq<Byte>, b: seq<Byte>) {
    b != [] && (a == [] || a[0] < b[0] || (a[0] == b[0] && BytesLess(a[1..], b[1..])))
  }

  predicate CodePointsLess(s: string, t: string) {
    t != "" && (s == "" || s[0] < t[0] || (s[0] == t[0] && CodePointsLess(s[1..], t[1..])))
  }

  /** `a` and `b` first differ at a position both have, and `a` is smaller there. */
  predicate Below(a: seq<Byte>, b: seq<Byte>) {
    a != [] && b != [] && (a[0] < b[0] || (a[0] == b[0] && Below(a[1..], b[1..])))
  }

  lemma {:induction false} BelowDecides(a: seq<Byte>, b: seq<Byte>, x: seq<Byte>, y: seq<Byte>)
    requires Below(a, b)
    ensures BytesLess(a + x, b + y) && !BytesLess(b + y, a + x)
  {
    if a[0] == b[0] {
      BelowDecides(a[1..], b[1..], x, y);
      assert (a + x)[1..] == a[1..] + x && (b + y)[1..] == b[1..] + y;
    }
  }

  lemma {:induction false} SharedPrefix(p: seq<Byte>, a: seq<Byte>, b: seq<Byte>)
    ensures BytesLess(p + a, p + b) == BytesLess(a, b)
  {
    if p == [] {
      assert p + a == a && p + b == b;
    } else {
      SharedPrefix(p[1..], a, b);
      assert (p + a)[1..] == p[1..] + a && (p + b)[1..] == p[1..] + b;
    }
  }

  lemma Below2(a: Byte, b: Byte, c: Byte, d: Byte)
    requires a < c || (a == c && b < d)
    ensures Below([a, b], [c, d])
  {
    assert [a, b][1..] == [b] && [c, d][1..] == [d];
  }

  lemma Below3(a: seq<Byte>, b: seq<Byte>)
    requires |a| == |b| == 3
    requires a[0] < b[0] || (a[0] == b[0] && (a[1] < b[1] || (a[1] == b[1] && a[2] < b[2])))
    ensures Below(a, b)
  {
    assert a[1..] == [a[1], a[2]] && b[1..] == [b[1], b[2]];
    if a[0] == b[0] { Below2(a[1], a[2], b[1], b[2]); }
  }

  lemma Below4(a: seq<Byte>, b: seq<Byte>)
    requires |a| == |b| == 4
    requires || a[0] < b[0]
             || (a[0] == b[0] && a[1] < b[1])
             || (a[0] == b[0] && a[1] == b[1] && a[2] < b[2])
             || (a[0] == b[0] && a[1] == b[1] && a[2] == b[2] && a[3] < b[3])
    ensures Below(a, b)
  {
    if a[0] == b[0] { Below3(a[1..], b[1..]); }
  }

  lemma CharOrder(c: char, d: char)
    requires c < d
    ensures Below(EncodeChar(c), EncodeChar(d))
  {
    var m, n := c as int, d as int;
    var a, b := EncodeChar(c), EncodeChar(d);
    if 0x80 <= m && n < 0x800 {
      Below2(a[0], a[1], b[0], b[1]);
    } else if 0x800 <= m && n < 0x10000 {
      ThreeDigits(m, n);
      Below3(a, b);
    } else if 0x10000 <= m {
      FourDigits(m, n);
      Below4(a, b);
    }
  }

  lemma ThreeDigits(m: nat, n: nat)
    requires m < n
    ensures m / 0x1000 < n / 0x1000
            || (m / 0x1000 == n / 0x1000
                && (m / 0x40 % 0x40 < n / 0x40 % 0x40 || (m / 0x40 % 0x40 == n / 0x40 % 0x40 && m % 0x40 < n % 0x40)))
  {
    assert m / 0x1000 == m / 0x40 / 0x40 && n / 0x1000 == n / 0x40 / 0x40;
  }

  lemma FourDigits(m: nat, n: nat)
    requires m < n
    ensures m / 0x40000 < n / 0x40000
            || (m / 0x40000 == n / 0x40000
                && (m / 0x1000 % 0x40 < n / 0x1000 % 0x40
                    || (m / 0x1000 % 0x40 == n / 0x1000 % 0x40
                        && (m / 0x40 % 0x40 < n / 0x40 % 0x40
                            || (m / 0x40 % 0x40 == n / 0x40 % 0x40 && m % 0x40 < n % 0x40)))))
  {
    assert m / 0x40000 == m / 0x1000 / 0x40 && n / 0x40000 == n / 0x1000 / 0x40;
    ThreeDigits(m, n);
  }

  /** Sorting encoded text by bytes sorts it by code points. */
  lemma {:induction false} ByteOrderIsCodePointOrder(s: string, t: string)
    ensures BytesLess(Encode(s), Encode(t)) == CodePointsLess(s, t)
  {
    if s != "" && t != "" {
      if s[0] == t[0] {
        SharedPrefix(EncodeChar(s[0]), Encode(s[1..]), Encode(t[1..]));
        ByteOrderIsCodePointOrder(s[1..], t[1..]);
      } else if s[0] < t[0] {
        CharOrder(s[0], t[0]);
        BelowDecides(EncodeChar(s[0]), EncodeChar(t[0]), Encode(s[1..]), Encode(t[1..]));
      } else {
        CharOrder(t[0], s[0]);
        BelowDecides(EncodeChar(t[0]), EncodeChar(s[0]), Encode(t[1..]), Encode(s[1..]));
      }
    }
  }

  lemma {:induction false} OrderIsTotal(s: string, t: string)
    ensures CodePointsLess(s, t) || s == t || CodePointsLess(t, s)
    ensures !(CodePointsLess(s, t) && CodePointsLess(t, s))
    ensures !CodePointsLess(s, s)
  {
    if s != "" {
      if t != "" && s[0] == t[0] {
        OrderIsTotal(s[1..], t[1..]);
        assert [s[0]] + s[1..] == s && [t[0]] + t[1..] == t;
      } else {
        OrderIsTotal(s[1..], s[1..]);
      }
    }
  }

  lemma EncodingIsInjective(s: string, t: string)
    requires Encode(s) == Encode(t)
    ensures s == t
  {
    ByteOrderIsCodePointOrder(s, t);
    ByteOrderIsCodePointOrder(t, s);
    OrderIsTotal(s, t);
  }

  lemma {:induction false} OrderIsTransitive(s: string, t: string, u: string)
    requires CodePointsLess(s, t) && CodePointsLess(t, u)
    ensures CodePointsLess(s, u)
  {
    if s != "" && s[0] == t[0] == u[0] {
      OrderIsTransitive(s[1..], t[1..], u[1..]);
    }
  }
}
