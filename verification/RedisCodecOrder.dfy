/** The order the codec keeps: numeric fields sort as their bytes do (src/redis/redis_adapter.h). */
module RedisCodecOrder {
  import opened MachineWords
  import opened RedisCodec

  /** Lexicographic order of unsigned bytes, as `memcmp` and Redis compare strings. */
  predicate BytesLess(a: seq<byte>, b: seq<byte>) {
    b != [] && (a == [] || a[0] < b[0] || (a[0] == b[0] && BytesLess(a[1..], b[1..])))
  }

  /** The number a numeric field holds. */
  function Number(f: Field): int
    requires !f.StringField?
  {
    match f
    case IntField(i) => i
    case Int64Field(l) => l
    case UInt64Field(u) => u
  }

  /** Numbers compare as numbers, strings by length and then byte by byte. */
  predicate FieldLess(f: Field, g: Field)
    requires f.Kind() == g.Kind()
  {
    if f.StringField? then |f.s| < |g.s| || (|f.s| == |g.s| && BytesLess(f.s, g.s))
    else Number(f) < Number(g)
  }

  /** Lexicographic order of the fields themselves. */
  predicate TupleLess(fs: seq<Field>, gs: seq<Field>)
    requires Shape(fs) == Shape(gs)
    decreases |fs|
  {
    if fs == [] then false
    else
      SameShapeRest(fs, gs);
      FieldLess(fs[0], gs[0]) || (fs[0] == gs[0] && TupleLess(fs[1..], gs[1..]))
  }

  /** Heads of equal length decide, and only equal heads hand the decision to the tails. */
  lemma {:induction false} BytesLessAppend(a: seq<byte>, x: seq<byte>, b: seq<byte>, y: seq<byte>)
    requires |a| == |b|
    ensures BytesLess(a + x, b + y) <==> BytesLess(a, b) || (a == b && BytesLess(x, y))
  {
    if a == [] {
      assert a + x == x && b + y == y;
    } else {
      BytesLessAppend(a[1..], x, b[1..], y);
      assert (a + x)[1..] == a[1..] + x && (b + y)[1..] == b[1..] + y;
      assert a == [a[0]] + a[1..] && b == [b[0]] + b[1..];
    }
  }

  lemma {:induction false} BigEndianOrder(v: nat, w: nat, n: nat)
    requires v < Pow256(n) && w < Pow256(n)
    ensures BytesLess(BigEndian(v, n), BigEndian(w, n)) <==> v < w
    ensures BigEndian(v, n) == BigEndian(w, n) <==> v == w
  {
    DecodeBigEndian(v, n);
    DecodeBigEndian(w, n);
    if n > 0 {
      BigEndianOrder(v / 256, w / 256, n - 1);
      BytesLessAppend(BigEndian(v / 256, n - 1), [v % 256], BigEndian(w / 256, n - 1), [w % 256]);
    }
  }

  lemma FieldOrder(f: Field, g: Field)
    requires f.Kind() == g.Kind() && !f.StringField?
    ensures |Encode(f)| == |Encode(g)|
    ensures BytesLess(Encode(f), Encode(g)) <==> Number(f) < Number(g)
    ensures Encode(f) == Encode(g) <==> f == g
  {
    Pow256Values();
    match f
    case IntField(i) =>
      BiasMonotone(i, g.i, TWO31);
      BiasMonotone(g.i, i, TWO31);
      BigEndianOrder(Biased(i, TWO31), Biased(g.i, TWO31), INT_BYTES);
    case Int64Field(l) =>
      BiasMonotone(l, g.l, TWO63);
      BiasMonotone(g.l, l, TWO63);
      BigEndianOrder(Biased(l, TWO63), Biased(g.l, TWO63), LONG_BYTES);
    case UInt64Field(u) =>
      BigEndianOrder(u, g.u, LONG_BYTES);
  }

  lemma LengthPrefixOrder(m: nat, x: seq<byte>, n: nat, y: seq<byte>)
    requires m < TWO32 && n < TWO32
    ensures BytesLess(BigEndian(m, INT_BYTES) + x, BigEndian(n, INT_BYTES) + y)
            <==> m < n || (m == n && BytesLess(x, y))
  {
    Pow256Values();
    BigEndianOrder(m, n, INT_BYTES);
    BytesLessAppend(BigEndian(m, INT_BYTES), x, BigEndian(n, INT_BYTES), y);
  }

  /** Whatever follows two fields of one kind, the fields decide unless they are equal. */
  lemma FieldThenRest(f: Field, x: seq<byte>, g: Field, y: seq<byte>)
    requires f.Kind() == g.Kind()
    requires f.StringField? ==> |f.s| < TWO32 && |g.s| < TWO32
    ensures BytesLess(Encode(f) + x, Encode(g) + y)
            <==> FieldLess(f, g) || (f == g && BytesLess(x, y))
  {
    if f.StringField? {
      StringThenRest(f.s, x, g.s, y);
    } else {
      FieldOrder(f, g);
      BytesLessAppend(Encode(f), x, Encode(g), y);
    }
  }

  lemma StringThenRest(s: seq<byte>, x: seq<byte>, t: seq<byte>, y: seq<byte>)
    requires |s| < TWO32 && |t| < TWO32
    ensures BytesLess(Encode(StringField(s)) + x, Encode(StringField(t)) + y)
            <==> FieldLess(StringField(s), StringField(t)) || (s == t && BytesLess(x, y))
  {
    SmallMod(|s|, TWO32);
    SmallMod(|t|, TWO32);
    Append3(BigEndian(|s|, INT_BYTES), s, x);
    Append3(BigEndian(|t|, INT_BYTES), t, y);
    LengthPrefixOrder(|s|, s + x, |t|, t + y);
    if |s| == |t| { BytesLessAppend(s, x, t, y); }
  }

  /** The order of two encodings of one shape is the lexicographic order of the tuples, field
      by field, whatever bytes follow each of them: numeric order as long as the fields are
      numbers, and by length and content at a string, wherever it stands. */
  lemma {:induction false} OrderPreserved(fs: seq<Field>, x: seq<byte>, gs: seq<Field>, y: seq<byte>)
    requires Shape(fs) == Shape(gs) && ShortStrings(fs) && ShortStrings(gs)
    ensures BytesLess(EncodeAll(fs) + x, EncodeAll(gs) + y)
            <==> TupleLess(fs, gs) || (fs == gs && BytesLess(x, y))
    decreases |fs|
  {
    if fs == [] {
      assert [] + x == x && [] + y == y;
    } else {
      SameShapeRest(fs, gs);
      Regroup(fs, x);
      Regroup(gs, y);
      FieldThenRest(fs[0], EncodeAll(fs[1..]) + x, gs[0], EncodeAll(gs[1..]) + y);
      OrderPreserved(fs[1..], x, gs[1..], y);
      assert fs == [fs[0]] + fs[1..] && gs == [gs[0]] + gs[1..];
    }
  }

  /** A string sorts by length first: this is why the source wants strings put last. */
  lemma {:induction false} StringOrderIsByLength(s: seq<byte>, t: seq<byte>)
    requires |s| < TWO32 && |t| < TWO32
    ensures BytesLess(Encode(StringField(s)), Encode(StringField(t)))
            <==> |s| < |t| || (|s| == |t| && BytesLess(s, t))
  {
    LengthPrefixOrder(|s|, s, |t|, t);
    SmallMod(|s|, TWO32);
    SmallMod(|t|, TWO32);
  }

  /** "aa" is below "b" as bytes, but their encodings are the other way round. */
  lemma StringOrderNotKept()
    ensures BytesLess([97, 97], [98])
    ensures !BytesLess(Encode(StringField([97, 97])), Encode(StringField([98])))
  {
    StringOrderIsByLength([97, 97], [98]);
  }
}
