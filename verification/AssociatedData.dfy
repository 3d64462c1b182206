/**
 The associated data of a sealed value: its store, purpose and labelled ids, each
 part written as a 64-bit big-endian length and its bytes.
 */
module AssociatedData {
  import opened Bytes
  import opened Sequences
  import opened Utf8

  const CONTENT_AAD_LABEL := "ryu-content-seal-v1"
  const LENGTH_BYTES := 8

  datatype ContentContext = ContentContext(purpose: string, fields: seq<(string, string)>) {
    function With(name: string, value: string): ContentContext {
      this.(fields := fields + [(name, value)])
    }
  }

  function Part(part: string): seq<Byte> {
    BigEndian(|Encode(part)|, LENGTH_BYTES) + Encode(part)
  }

  function Concat(parts: seq<string>): seq<Byte> {
    if parts == [] then [] else Part(parts[0]) + Concat(parts[1..])
  }

  function FieldParts(fields: seq<(string, string)>): seq<string> {
    if fields == [] then [] else [fields[0].0, fields[0].1] + FieldParts(fields[1..])
  }

  /** What comes before the fields: a fixed label, then the store and the purpose,
      each with its name. */
  function Head(store: string, purpose: string): seq<string> {
    [CONTENT_AAD_LABEL, "store", store, "purpose", purpose]
  }

  /** Everything that goes into the associated data, in order. */
  function ContextParts(store: string, context: ContentContext): seq<string> {
    Head(store, context.purpose) + FieldParts(context.fields)
  }

  function Aad(store: string, context: ContentContext): seq<Byte> {
    Concat(ContextParts(store, context))
  }

  /** The length of every part fits its 64 bits. */
  ghost predicate PartsFit(parts: seq<string>) {
    forall part :: part in parts ==> |Encode(part)| < Pow256(LENGTH_BYTES)
  }

  /** The length field holds every number below two to the sixty-fourth. */
  lemma LengthsOfSixtyFourBits()
    ensures Pow256(LENGTH_BYTES) == 0x1_0000_0000_0000_0000
  {
    assert Pow256(2) == 0x1_0000;
    assert Pow256(4) == 0x1_0000_0000;
    assert Pow256(6) == 0x1_0000_0000_0000;
  }

  /** The layout: label, store, purpose, then each id with its name before it, in the order
      the ids were added. */
  lemma LayoutOfParts(store: string, context: ContentContext, name: string, value: string)
    ensures ContextParts(store, ContentContext(context.purpose, []))
         == ["ryu-content-seal-v1", "store", store, "purpose", context.purpose]
    ensures ContextParts(store, context.With(name, value)) == ContextParts(store, context) + [name, value]
  {
    FieldPartsSnoc(context.fields, (name, value));
    assert FieldParts(context.fields) + [name] + [value] == FieldParts(context.fields) + [name, value];
    Associative(Head(store, context.purpose), FieldParts(context.fields), [name, value]);
  }

  method PushPart(out: seq<Byte>, part: string) returns (longer: seq<Byte>)
    ensures longer == out + Part(part)
  {
    var bytes := Encode(part);
    longer := out + BigEndian(|bytes|, LENGTH_BYTES);
    longer := longer + bytes;
  }

  method PushFive(a: string, b: string, c: string, d: string, e: string) returns (out: seq<Byte>)
    ensures out == Concat([a, b, c, d, e])
  {
    ConcatFive(a, b, c, d, e);
    out := PushPart([], a);
    out := PushPart(out, b);
    out := PushPart(out, c);
    out := PushPart(out, d);
    out := PushPart(out, e);
  }

  method PushFields(start: seq<Byte>, ghost head: seq<string>, fields: seq<(string, string)>) returns (out: seq<Byte>)
    requires start == Concat(head)
    ensures out == Concat(head + FieldParts(fields))
  {
    out := start;
    assert head + FieldParts(fields[..0]) == head;
    for next := 0 to |fields|
      invariant out == Concat(head + FieldParts(fields[..next]))
    {
      OneMoreField(head, fields, next);
      out := PushPart(out, fields[next].0);
      out := PushPart(out, fields[next].1);
    }
    assert fields[..|fields|] == fields;
  }

  method AssociatedDataOf(context: ContentContext, store: string) returns (out: seq<Byte>)
    ensures out == Aad(store, context)
  {
    out := PushFive(CONTENT_AAD_LABEL, "store", store, "purpose", context.purpose);
    out := PushFields(out, Head(store, context.purpose), context.fields);
  }

  lemma ConcatFive(a: string, b: string, c: string, d: string, e: string)
    ensures Concat([a, b, c, d, e]) == [] + Part(a) + Part(b) + Part(c) + Part(d) + Part(e)
  {
    ConcatSnoc([], a);
    ConcatSnoc([a], b);
    ConcatSnoc([a, b], c);
    ConcatSnoc([a, b, c], d);
    ConcatSnoc([a, b, c, d], e);
    assert [] + [a] == [a] && [a] + [b] == [a, b] && [a, b] + [c] == [a, b, c];
    assert [a, b, c] + [d] == [a, b, c, d] && [a, b, c, d] + [e] == [a, b, c, d, e];
  }

  lemma {:induction false} ConcatSnoc(parts: seq<string>, last: string)
    ensures Concat(parts + [last]) == Concat(parts) + Part(last)
  {
    if parts == [] {
      assert [last][1..] == [] && Concat([last]) == Part(last) + [];
    } else {
      ConcatSnoc(parts[1..], last);
      assert (parts + [last])[1..] == parts[1..] + [last];
    }
  }

  lemma {:induction false} FieldPartsSnoc(fields: seq<(string, string)>, last: (string, string))
    ensures FieldParts(fields + [last]) == FieldParts(fields) + [last.0] + [last.1]
  {
    if fields == [] {
      assert [last][1..] == [];
    } else {
      FieldPartsSnoc(fields[1..], last);
      assert (fields + [last])[1..] == fields[1..] + [last];
    }
  }

  lemma OneMoreField(head: seq<string>, fields: seq<(string, string)>, n: nat)
    requires n < |fields|
    ensures Concat(head + FieldParts(fields[..n + 1]))
         == Concat(head + FieldParts(fields[..n])) + Part(fields[n].0) + Part(fields[n].1)
  {
    var parts, name, value := FieldParts(fields[..n]), fields[n].0, fields[n].1;
    assert fields[..n + 1] == fields[..n] + [fields[n]];
    FieldPartsSnoc(fields[..n], fields[n]);
    assert head + (parts + [name] + [value]) == (head + parts + [name]) + [value];
    assert head + parts + [name] == head + (parts + [name]);
    ConcatSnoc(head + parts + [name], value);
    ConcatSnoc(head + parts, name);
  }

  // ── No two contexts share their bytes ─────────────────────────────────────

  /** A length and its bytes are never a proper beginning of another length and its
      bytes. */
  lemma PrefixFree(width: nat, a: seq<Byte>, b: seq<Byte>, x: seq<Byte>, y: seq<Byte>)
    requires |a| < Pow256(width) && |b| < Pow256(width)
    requires BigEndian(|a|, width) + a + x == BigEndian(|b|, width) + b + y
    ensures a == b && x == y
  {
    var m, n := BigEndian(|a|, width), BigEndian(|b|, width);
    Associative(m, a, x);
    Associative(n, b, y);
    SameParts(m, a + x, n, b + y);
    BigEndianComesBack(|a|, width);
    BigEndianComesBack(|b|, width);
    SameParts(a, x, b, y);
  }

  lemma {:induction false} ConcatIsInjective(p: seq<string>, q: seq<string>)
    requires PartsFit(p) && PartsFit(q) && Concat(p) == Concat(q)
    ensures p == q
  {
    if p == [] || q == [] {
      assert |Concat(p)| == |Concat(q)|;
    } else {
      PrefixFree(LENGTH_BYTES, Encode(p[0]), Encode(q[0]), Concat(p[1..]), Concat(q[1..]));
      EncodingIsInjective(p[0], q[0]);
      ConcatIsInjective(p[1..], q[1..]);
      assert [p[0]] + p[1..] == p && [q[0]] + q[1..] == q;
    }
  }

  lemma {:induction false} FieldPartsAreInjective(f: seq<(string, string)>, g: seq<(string, string)>)
    requires FieldParts(f) == FieldParts(g)
    ensures f == g
  {
    if f != [] && g != [] {
      var p, q := FieldParts(f), FieldParts(g);
      assert f[0].0 == p[0] == q[0] == g[0].0 && f[0].1 == p[1] == q[1] == g[0].1;
      assert FieldParts(f[1..]) == p[2..] == q[2..] == FieldParts(g[1..]);
      FieldPartsAreInjective(f[1..], g[1..]);
      assert [f[0]] + f[1..] == f && [g[0]] + g[1..] == g;
    }
  }

  lemma SameHead(store: string, purpose: string, store': string, purpose': string)
    requires Head(store, purpose) == Head(store', purpose')
    ensures store == store' && purpose == purpose'
  {
    assert Head(store, purpose)[2] == store && Head(store, purpose)[4] == purpose;
    assert Head(store', purpose')[2] == store' && Head(store', purpose')[4] == purpose';
  }

  lemma ContextPartsAreInjective(store: string, context: ContentContext, store': string, context': ContentContext)
    requires ContextParts(store, context) == ContextParts(store', context')
    ensures store == store' && context == context'
  {
    SameParts(
      Head(store, context.purpose), FieldParts(context.fields),
      Head(store', context'.purpose), FieldParts(context'.fields));
    SameHead(store, context.purpose, store', context'.purpose);
    FieldPartsAreInjective(context.fields, context'.fields);
  }

  /** The same bytes come only from the same store, purpose and list of ids. */
  lemma AadIsInjective(store: string, context: ContentContext, store': string, context': ContentContext)
    requires PartsFit(ContextParts(store, context)) && PartsFit(ContextParts(store', context'))
    requires Aad(store, context) == Aad(store', context')
    ensures store == store' && context == context'
  {
    ConcatIsInjective(ContextParts(store, context), ContextParts(store', context'));
    ContextPartsAreInjective(store, context, store', context');
  }
}
