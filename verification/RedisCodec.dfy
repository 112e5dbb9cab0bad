/** The binary codec of the Redis adapter (src/redis/redis_adapter.h).

    A call to the variadic `serialize` is a sequence of typed fields; the types of the
    references handed to `deserialize` are a sequence of kinds.  `Encode*` and `Decode*`
    specify the two directions; the methods below them are the source's loops. */
module RedisCodec {

  import opened MachineWords
  import opened Options

  /** Bytes of an `int` or of a string's length prefix, and of a 64-bit integer. */
  const INT_BYTES: nat := 4
  const LONG_BYTES: nat := 8

  type byte = x: int | 0 <= x < 256

  datatype Kind = IntKind | Int64Kind | UInt64Kind | StringKind

  datatype Field =
    | IntField(i: int32)
    | Int64Field(l: int64)
    | UInt64Field(u: uint64)
    | StringField(s: seq<byte>)
  {
    function Kind(): Kind {
      match this
      case IntField(_) => IntKind
      case Int64Field(_) => Int64Kind
      case UInt64Field(_) => UInt64Kind
      case StringField(_) => StringKind
    }
  }

  function Shape(fs: seq<Field>): (kinds: seq<Kind>)
    ensures |kinds| == |fs|
  {
    if fs == [] then [] else [fs[0].Kind()] + Shape(fs[1..])
  }

  // ---------- machine words ----------

  function Pow256(n: nat): (p: nat)
    ensures p > 0
  {
    if n == 0 then 1 else 256 * Pow256(n - 1)
  }

  /** The `n` low bytes of `v`, most significant first. */
  function BigEndian(v: nat, n: nat): (b: seq<byte>)
    ensures |b| == n
  {
    if n == 0 then [] else BigEndian(v / 256, n - 1) + [v % 256]
  }

  function FromBigEndian(b: seq<byte>): nat {
    if b == [] then 0 else FromBigEndian(b[..|b| - 1]) * 256 + b[|b| - 1]
  }

  // ---------- specification of the two directions ----------

  function Encode(f: Field): seq<byte> {
    match f
    case IntField(i) => BigEndian(Biased(i, TWO31), INT_BYTES)
    case Int64Field(l) => BigEndian(Biased(l, TWO63), LONG_BYTES)
    case UInt64Field(u) => BigEndian(u, LONG_BYTES)
    case StringField(s) => BigEndian(|s| % TWO32, INT_BYTES) + s
  }

  function EncodeAll(fs: seq<Field>): seq<byte> {
    if fs == [] then [] else Encode(fs[0]) + EncodeAll(fs[1..])
  }

  /** The string at the head of the unread input, and what is left after it. */
  function DecodeString(input: seq<byte>): Option<(seq<byte>, seq<byte>)> {
    if INT_BYTES > |input| then None
    else
      var len, body := FromBigEndian(input[..INT_BYTES]), input[INT_BYTES..];
      if len > |body| then None else Some((body[..len], body[len..]))
  }

  /** The first field of the unread input, and what is left after it. */
  function DecodeField(input: seq<byte>, kind: Kind): (r: Option<(Field, seq<byte>)>)
    ensures r.Some? ==> r.value.0.Kind() == kind
  {
    match kind
    case IntKind =>
      if INT_BYTES > |input| then None
      else
        var word := input[..INT_BYTES];
        WordBound(word);
        Some((IntField(Unbiased(FromBigEndian(word), TWO31)), input[INT_BYTES..]))
    case Int64Kind =>
      if LONG_BYTES > |input| then None
      else
        var word := input[..LONG_BYTES];
        WordBound(word);
        Some((Int64Field(Unbiased(FromBigEndian(word), TWO63)), input[LONG_BYTES..]))
    case UInt64Kind =>
      if LONG_BYTES > |input| then None
      else
        var word := input[..LONG_BYTES];
        WordBound(word);
        Some((UInt64Field(FromBigEndian(word)), input[LONG_BYTES..]))
    case StringKind =>
      match DecodeString(input)
      case None => None
      case Some((s, rest)) => Some((StringField(s), rest))
  }

  function Decode(input: seq<byte>, kinds: seq<Kind>): Option<seq<Field>>
    decreases |kinds|
  {
    if kinds == [] then
      if input == [] then Some([]) else None
    else
      match DecodeField(input, kinds[0])
      case None => None
      case Some((f, rest)) =>
        match Decode(rest, kinds[1..])
        case None => None
        case Some(fs) => Some([f] + fs)
  }

  predicate ShortStrings(fs: seq<Field>) {
    forall i :: 0 <= i < |fs| && fs[i].StringField? ==> |fs[i].s| < TWO32
  }

  lemma Regroup(fs: seq<Field>, x: seq<byte>)
    requires fs != []
    ensures EncodeAll(fs) + x == Encode(fs[0]) + (EncodeAll(fs[1..]) + x)
  {
    Append3(Encode(fs[0]), EncodeAll(fs[1..]), x);
  }

  lemma SameShapeRest(fs: seq<Field>, gs: seq<Field>)
    requires fs != [] && gs != [] && Shape(fs) == Shape(gs)
    ensures fs[0].Kind() == gs[0].Kind() && Shape(fs[1..]) == Shape(gs[1..])
  {
    assert Shape(fs)[0] == fs[0].Kind() && Shape(gs)[0] == gs[0].Kind();
    assert Shape(fs)[1..] == Shape(fs[1..]) && Shape(gs)[1..] == Shape(gs[1..]);
  }

  // ---------- words and bytes ----------

  lemma {:induction false} WordBound(b: seq<byte>)
    ensures FromBigEndian(b) < Pow256(|b|)
    ensures |b| == INT_BYTES ==> FromBigEndian(b) < TWO32
    ensures |b| == LONG_BYTES ==> FromBigEndian(b) < TWO64
  {
    Pow256Values();
    if b != [] {
      WordBound(b[..|b| - 1]);
    }
  }

  lemma Pow256Values()
    ensures Pow256(INT_BYTES) == TWO32 && Pow256(LONG_BYTES) == TWO64
  {
    assert Pow256(2) == 0x1_0000;
    assert Pow256(4) == 0x1_0000 * 0x1_0000;
    assert Pow256(6) == 0x1_0000 * Pow256(4);
  }

  lemma {:induction false} DecodeBigEndian(v: nat, n: nat)
    requires v < Pow256(n)
    ensures FromBigEndian(BigEndian(v, n)) == v
  {
    if n > 0 {
      DecodeBigEndian(v / 256, n - 1);
      assert BigEndian(v, n)[..n - 1] == BigEndian(v / 256, n - 1);
    }
  }

  lemma {:induction false} EncodeWord(b: seq<byte>)
    ensures BigEndian(FromBigEndian(b), |b|) == b
  {
    if b != [] {
      EncodeWord(b[..|b| - 1]);
      assert b == b[..|b| - 1] + [b[|b| - 1]];
    }
  }

  lemma DivTwice(v: nat, p: nat)
    requires p > 0
    ensures v / 256 / p == v / (256 * p)
  {
    var q := v / 256 / p;
    assert q * p <= v / 256 < (q + 1) * p;
    TimesShuffle(q, p);
    TimesShuffle(q + 1, p);
    DivUnique(v, 256 * p, q);
  }

  lemma TimesShuffle(q: nat, p: nat)
    ensures 256 * (q * p) == q * (256 * p)
  {
  }

  lemma DivUnique(v: nat, d: nat, q: nat)
    requires d > 0 && q * d <= v < (q + 1) * d
    ensures v / d == q
  {
    TimesMonotone(v / d + 1, q, d);
    TimesMonotone(q + 1, v / d, d);
  }

  lemma TimesMonotone(a: int, b: int, d: nat)
    ensures a <= b ==> a * d <= b * d
  {
  }

  /** Byte `i` of the encoding is the word shifted right by `8 * (n - 1 - i)` bits. */
  lemma {:induction false} BigEndianAt(v: nat, n: nat, i: nat)
    requires i < n
    ensures BigEndian(v, n)[i] == v / Pow256(n - 1 - i) % 256
  {
    if i < n - 1 {
      BigEndianAt(v / 256, n - 1, i);
      DivTwice(v, Pow256(n - 2 - i));
    }
  }

  lemma FourBytes(u: nat)
    ensures BigEndian(u, INT_BYTES)
            == [u / 0x100_0000 % 256, u / 0x1_0000 % 256, u / 0x100 % 256, u % 256]
  {
    assert Pow256(3) == 0x100_0000 && Pow256(2) == 0x1_0000 && Pow256(1) == 0x100 && Pow256(0) == 1;
    hide BigEndian, Pow256;
    BigEndianAt(u, INT_BYTES, 0);
    BigEndianAt(u, INT_BYTES, 1);
    BigEndianAt(u, INT_BYTES, 2);
    BigEndianAt(u, INT_BYTES, 3);
  }

  /** The bytes of each field: four or eight of them, which read as a big-endian number tell the
      value, offset so that none is negative; a string stands after the number of its bytes. */
  lemma WireFormat(f: Field)
    ensures match f
            case IntField(i) => |Encode(f)| == 4 && FromBigEndian(Encode(f)) == i + 0x8000_0000
            case Int64Field(l) => |Encode(f)| == 8 && FromBigEndian(Encode(f)) == l + 0x8000_0000_0000_0000
            case UInt64Field(u) => |Encode(f)| == 8 && FromBigEndian(Encode(f)) == u
            case StringField(s) =>
              && |Encode(f)| == 4 + |s| && Encode(f)[4..] == s
              && FromBigEndian(Encode(f)[..4]) == |s| % 0x1_0000_0000
  {
    Pow256Values();
    hide BigEndian, FromBigEndian, Pow256;
    match f
    case IntField(i) => DecodeBigEndian(Biased(i, TWO31), INT_BYTES);
    case Int64Field(l) => DecodeBigEndian(Biased(l, TWO63), LONG_BYTES);
    case UInt64Field(u) => DecodeBigEndian(u, LONG_BYTES);
    case StringField(s) =>
      DecodeBigEndian(|s| % TWO32, INT_BYTES);
      assert Encode(f)[..4] == BigEndian(|s| % TWO32, INT_BYTES);
  }

  // ---------- the serializers ----------

  method SerializeInt(val: int32) returns (r: seq<byte>)
    ensures r == Encode(IntField(val))
  {
    var u := Xor(ToUnsigned(val, TWO32), TWO31);
    FlipTopIsXor(ToUnsigned(val, TWO32));
    var buf := new byte[INT_BYTES];
    buf[0] := u / 0x100_0000 % 256;
    buf[1] := u / 0x1_0000 % 256;
    buf[2] := u / 0x100 % 256;
    buf[3] := u % 256;
    r := buf[..];
    FourBytes(u);
  }

  method SerializeInt64(val: int64) returns (r: seq<byte>)
    ensures r == Encode(Int64Field(val))
  {
    FlipTopIsXor(ToUnsigned(val, TWO64));
    r := FillBuffer(Xor(ToUnsigned(val, TWO64), TWO63));
  }

  method SerializeUInt64(val: uint64) returns (r: seq<byte>)
    ensures r == Encode(UInt64Field(val))
  {
    r := FillBuffer(val);
  }

  /** The loop shared by the two 64-bit serializers. */
  method FillBuffer(u: nat) returns (r: seq<byte>)
    ensures r == BigEndian(u, LONG_BYTES)
  {
    var buf := new byte[LONG_BYTES];
    for i := 0 to LONG_BYTES
      invariant buf[..i] == BigEndian(u, LONG_BYTES)[..i]
    {
      BigEndianAt(u, LONG_BYTES, i);
      buf[i] := u / Pow256(7 - i) % 256;
    }
    r := buf[..];
  }

  method SerializeString(str: seq<byte>) returns (r: seq<byte>)
    ensures r == Encode(StringField(str))
  {
    var len := |str| % TWO32;
    var buf := new byte[INT_BYTES];
    buf[0] := len / 0x100_0000 % 256;
    buf[1] := len / 0x1_0000 % 256;
    buf[2] := len / 0x100 % 256;
    buf[3] := len % 256;
    r := buf[..] + str;
    FourBytes(len);
  }

  method SerializeField(f: Field) returns (r: seq<byte>)
    ensures r == Encode(f)
  {
    match f
    case IntField(i) => r := SerializeInt(i);
    case Int64Field(l) => r := SerializeInt64(l);
    case UInt64Field(u) => r := SerializeUInt64(u);
    case StringField(s) => r := SerializeString(s);
  }

  /** What comes out decodes to the fields that went in, unless a string is too long for its
      length prefix. */
  method Serialize(fs: seq<Field>) returns (r: seq<byte>)
    ensures r == EncodeAll(fs)
    ensures ShortStrings(fs) <==> Decode(r, Shape(fs)) == Some(fs)
  {
    if fs == [] {
      r := [];
    } else {
      var first := SerializeField(fs[0]);
      var rest := Serialize(fs[1..]);
      r := first + rest;
    }
    RoundTripIff(fs);
  }

  // ---------- the deserializers ----------

  /** The accumulating loop of every deserializer, over a word with `modulus` values: the
      shift drops high bits, but no bit it drops was ever set. */
  method ReadLoop(str: seq<byte>, offset: nat, bytes: nat, modulus: nat) returns (u: nat)
    requires offset + bytes <= |str|
    requires Pow256(bytes) == modulus
    ensures u == FromBigEndian(str[offset..][..bytes])
  {
    u := 0;
    ghost var word := str[offset..][..bytes];
    for i := 0 to bytes
      invariant u == FromBigEndian(word[..i])
    {
      NoBitsLost(word[..i + 1], bytes);
      assert word[..i + 1][..i] == word[..i];
      u := u * 256 % modulus + str[offset + i];
    }
    assert word[..bytes] == word;
  }

  lemma {:induction false} NoBitsLost(b: seq<byte>, bytes: nat)
    requires 0 < |b| <= bytes
    ensures FromBigEndian(b[..|b| - 1]) * 256 % Pow256(bytes) == FromBigEndian(b[..|b| - 1]) * 256
  {
    WordBound(b);
    Pow256Monotone(|b|, bytes);
    SmallMod(FromBigEndian(b[..|b| - 1]) * 256, Pow256(bytes));
  }

  lemma SmallMod(x: nat, m: nat)
    ensures x < m ==> x % m == x
  {
  }

  lemma {:induction false} Pow256Monotone(m: nat, n: nat)
    requires m <= n
    ensures Pow256(m) <= Pow256(n)
  {
    if m < n {
      Pow256Monotone(m, n - 1);
    }
  }

  method DeserializeInt(str: seq<byte>, offset: nat) returns (ok: bool, next: nat, val: int32)
    requires offset <= |str|
    ensures next <= |str|
    ensures DecodeField(str[offset..], IntKind) == if ok then Some((IntField(val), str[next..])) else None
  {
    ok, next, val := false, offset, 0;
    if offset + INT_BYTES > |str| { return; }
    Pow256Values();
    var u := ReadLoop(str, offset, INT_BYTES, TWO32);
    WordBound(str[offset..][..INT_BYTES]);
    next := offset + INT_BYTES;
    FlipTopIsXor(u);
    u := Xor(u, TWO31);
    val := ToSigned(u, TWO31);
    ok := true;
  }

  method DeserializeInt64(str: seq<byte>, offset: nat) returns (ok: bool, next: nat, val: int64)
    requires offset <= |str|
    ensures next <= |str|
    ensures DecodeField(str[offset..], Int64Kind) == if ok then Some((Int64Field(val), str[next..])) else None
  {
    ok, next, val := false, offset, 0;
    if offset + LONG_BYTES > |str| { return; }
    Pow256Values();
    var u := ReadLoop(str, offset, LONG_BYTES, TWO64);
    WordBound(str[offset..][..LONG_BYTES]);
    next := offset + LONG_BYTES;
    FlipTopIsXor(u);
    u := Xor(u, TWO63);
    val := ToSigned(u, TWO63);
    ok := true;
  }

  method DeserializeUInt64(str: seq<byte>, offset: nat) returns (ok: bool, next: nat, val: uint64)
    requires offset <= |str|
    ensures next <= |str|
    ensures DecodeField(str[offset..], UInt64Kind) == if ok then Some((UInt64Field(val), str[next..])) else None
  {
    ok, next, val := false, offset, 0;
    if offset + LONG_BYTES > |str| { return; }
    Pow256Values();
    var u := ReadLoop(str, offset, LONG_BYTES, TWO64);
    WordBound(str[offset..][..LONG_BYTES]);
    next := offset + LONG_BYTES;
    val := u;
    ok := true;
  }

  method DeserializeString(str: seq<byte>, offset: nat) returns (ok: bool, next: nat, val: seq<byte>)
    requires offset <= |str|
    ensures next <= |str|
    ensures DecodeField(str[offset..], StringKind) == if ok then Some((StringField(val), str[next..])) else None
  {
    ok, next, val := false, offset, [];
    if offset + INT_BYTES > |str| { return; }
    Pow256Values();
    var len := ReadLoop(str, offset, INT_BYTES, TWO32);
    next := offset + INT_BYTES;
    assert str[offset..][INT_BYTES..] == str[next..];
    if next + len > |str| { return; }
    val := str[next..next + len];
    assert str[next..][..len] == val && str[next..][len..] == str[next + len..];
    next := next + len;
    ok := true;
  }

  method DeserializeField(str: seq<byte>, offset: nat, kind: Kind)
    returns (ok: bool, next: nat, f: Field)
    requires offset <= |str|
    ensures next <= |str|
    ensures DecodeField(str[offset..], kind) == if ok then Some((f, str[next..])) else None
  {
    match kind {
      case IntKind =>
        var i; ok, next, i := DeserializeInt(str, offset); f := IntField(i);
      case Int64Kind =>
        var l; ok, next, l := DeserializeInt64(str, offset); f := Int64Field(l);
      case UInt64Kind =>
        var u; ok, next, u := DeserializeUInt64(str, offset); f := UInt64Field(u);
      case StringKind =>
        var s; ok, next, s := DeserializeString(str, offset); f := StringField(s);
    }
  }

  method DeserializeAll(str: seq<byte>, offset: nat, kinds: seq<Kind>)
    returns (ok: bool, fields: seq<Field>)
    requires offset <= |str|
    ensures Decode(str[offset..], kinds) == if ok then Some(fields) else None
    decreases |kinds|
  {
    fields := [];
    if kinds == [] { return offset == |str|, fields; }
    var first, next;
    ok, next, first := DeserializeField(str, offset, kinds[0]);
    if !ok { return; }
    ok, fields := DeserializeAll(str, next, kinds[1..]);
    if ok { fields := [first] + fields; }
  }

  /** Accepts exactly the bytes that some field list of the asked shape serializes to, and
      returns that list. */
  method Deserialize(str: seq<byte>, kinds: seq<Kind>) returns (ok: bool, fields: seq<Field>)
    ensures ok ==> EncodeAll(fields) == str && Shape(fields) == kinds && ShortStrings(fields)
    ensures !ok ==> forall fs :: Shape(fs) == kinds && ShortStrings(fs) ==> EncodeAll(fs) != str
  {
    ok, fields := DeserializeAll(str, 0, kinds);
    assert str[0..] == str;
    if ok {
      AcceptedIsEncoding(str, kinds, fields);
    } else {
      forall fs | Shape(fs) == kinds && ShortStrings(fs)
        ensures EncodeAll(fs) != str
      {
        RoundTrip(fs);
      }
    }
  }

  // ---------- round trips ----------

  lemma DecodeEncodedWord(u: nat, width: nat, post: seq<byte>)
    requires u < Pow256(width)
    ensures FromBigEndian((BigEndian(u, width) + post)[..width]) == u
    ensures (BigEndian(u, width) + post)[width..] == post
  {
    assert (BigEndian(u, width) + post)[..width] == BigEndian(u, width);
    DecodeBigEndian(u, width);
  }

  lemma DecodeEncoded(f: Field, post: seq<byte>)
    requires f.StringField? ==> |f.s| < TWO32
    ensures DecodeField(Encode(f) + post, f.Kind()) == Some((f, post))
  {
    Pow256Values();
    match f
    case IntField(i) =>
      BiasRoundTrip(i, TWO31);
      DecodeEncodedWord(Biased(i, TWO31), INT_BYTES, post);
    case Int64Field(l) =>
      BiasRoundTrip(l, TWO63);
      DecodeEncodedWord(Biased(l, TWO63), LONG_BYTES, post);
    case UInt64Field(u) => DecodeEncodedWord(u, LONG_BYTES, post);
    case StringField(s) =>
      SmallMod(|s|, TWO32);
      Append3(BigEndian(|s|, INT_BYTES), s, post);
      DecodeEncodedString(s, post);
  }

  lemma DecodeEncodedString(s: seq<byte>, post: seq<byte>)
    requires |s| < TWO32
    ensures DecodeString(BigEndian(|s|, INT_BYTES) + (s + post)) == Some((s, post))
  {
    Pow256Values();
    DecodeEncodedWord(|s|, INT_BYTES, s + post);
    assert (s + post)[..|s|] == s && (s + post)[|s|..] == post;
  }

  lemma {:induction false} RoundTrip(fs: seq<Field>)
    requires ShortStrings(fs)
    ensures Decode(EncodeAll(fs), Shape(fs)) == Some(fs)
  {
    if fs != [] {
      DecodeEncoded(fs[0], EncodeAll(fs[1..]));
      RoundTrip(fs[1..]);
      assert Shape(fs)[1..] == Shape(fs[1..]);
      assert fs == [fs[0]] + fs[1..];
    }
  }

  lemma EncodeDecodedWord(input: seq<byte>, width: nat)
    requires width <= |input|
    ensures BigEndian(FromBigEndian(input[..width]), width) + input[width..] == input
  {
    EncodeWord(input[..width]);
  }

  lemma EncodeDecoded(input: seq<byte>, kind: Kind)
    requires DecodeField(input, kind).Some?
    ensures var (f, rest) := DecodeField(input, kind).value;
            Encode(f) + rest == input && (f.StringField? ==> |f.s| < TWO32)
  {
    if kind.StringKind? {
      EncodeDecodedString(input);
    } else {
      var width := if kind.IntKind? then INT_BYTES else LONG_BYTES;
      WordBound(input[..width]);
      EncodeDecodedWord(input, width);
      UnbiasRoundTrip(FromBigEndian(input[..width]), if kind.IntKind? then TWO31 else TWO63);
    }
  }

  lemma EncodeDecodedString(input: seq<byte>)
    requires DecodeString(input).Some?
    ensures var (s, rest) := DecodeString(input).value;
            Encode(StringField(s)) + rest == input && |s| < TWO32
  {
    var len, body := FromBigEndian(input[..INT_BYTES]), input[INT_BYTES..];
    WordBound(input[..INT_BYTES]);
    EncodeDecodedWord(input, INT_BYTES);
    SmallMod(len, TWO32);
    Append3(BigEndian(len, INT_BYTES), body[..len], body[len..]);
    assert body[..len] + body[len..] == body;
  }

  lemma Append3(a: seq<byte>, b: seq<byte>, c: seq<byte>)
    ensures a + b + c == a + (b + c)
  {
  }

  /** Whatever the decoder accepts is the encoding of what it returns. */
  lemma {:induction false} AcceptedIsEncoding(input: seq<byte>, kinds: seq<Kind>, fs: seq<Field>)
    requires Decode(input, kinds) == Some(fs)
    ensures EncodeAll(fs) == input && Shape(fs) == kinds && ShortStrings(fs)
    decreases |kinds|
  {
    if kinds != [] {
      EncodeDecoded(input, kinds[0]);
      var (f, rest) := DecodeField(input, kinds[0]).value;
      assert fs == [f] + fs[1..];
      AcceptedIsEncoding(rest, kinds[1..], fs[1..]);
    }
  }

  /** The round trip holds exactly for lists whose strings fit their 32-bit length prefix. */
  lemma RoundTripIff(fs: seq<Field>)
    ensures Decode(EncodeAll(fs), Shape(fs)) == Some(fs) <==> ShortStrings(fs)
  {
    if ShortStrings(fs) {
      RoundTrip(fs);
    }
    if Decode(EncodeAll(fs), Shape(fs)) == Some(fs) {
      AcceptedIsEncoding(EncodeAll(fs), Shape(fs), fs);
    }
  }

  /** No encoding of a shape is a prefix of another one of that shape. */
  lemma PrefixFree(fs: seq<Field>, gs: seq<Field>)
    requires Shape(fs) == Shape(gs) && ShortStrings(fs) && ShortStrings(gs)
    requires EncodeAll(fs) <= EncodeAll(gs)
    ensures fs == gs
  {
    var rest := EncodeAll(gs)[|EncodeAll(fs)|..];
    assert EncodeAll(fs) + rest == EncodeAll(gs);
    EncodingsAlign(fs, rest, gs, []);
    assert EncodeAll(gs) + [] == EncodeAll(gs);
  }

  lemma {:induction false} EncodingsAlign(fs: seq<Field>, x: seq<byte>, gs: seq<Field>, y: seq<byte>)
    requires Shape(fs) == Shape(gs) && ShortStrings(fs) && ShortStrings(gs)
    requires EncodeAll(fs) + x == EncodeAll(gs) + y
    ensures fs == gs && x == y
    decreases |fs|
  {
    if fs == [] {
      assert [] + x == x && [] + y == y;
    } else {
      Regroup(fs, x);
      Regroup(gs, y);
      SameShapeRest(fs, gs);
      FirstAligns(fs[0], EncodeAll(fs[1..]) + x, gs[0], EncodeAll(gs[1..]) + y);
      EncodingsAlign(fs[1..], x, gs[1..], y);
      assert fs == [fs[0]] + fs[1..] && gs == [gs[0]] + gs[1..];
    }
  }

  lemma FirstAligns(f: Field, x: seq<byte>, g: Field, y: seq<byte>)
    requires f.Kind() == g.Kind()
    requires (f.StringField? ==> |f.s| < TWO32) && (g.StringField? ==> |g.s| < TWO32)
    requires Encode(f) + x == Encode(g) + y
    ensures f == g && x == y
  {
    DecodeEncoded(f, x);
    DecodeEncoded(g, y);
  }

  /** Cutting off the tail of an encoding, or adding bytes after it, makes it unacceptable. */
  lemma TruncatedOrTrailingRejected(fs: seq<Field>, cut: nat, extra: seq<byte>)
    requires ShortStrings(fs)
    requires cut < |EncodeAll(fs)| && extra != []
    ensures Decode(EncodeAll(fs)[..cut], Shape(fs)) == None
    ensures Decode(EncodeAll(fs) + extra, Shape(fs)) == None
  {
    var bytes := EncodeAll(fs);
    if Decode(bytes[..cut], Shape(fs)) != None {
      var gs := Decode(bytes[..cut], Shape(fs)).value;
      AcceptedIsEncoding(bytes[..cut], Shape(fs), gs);
      PrefixFree(gs, fs);
    }
    if Decode(bytes + extra, Shape(fs)) != None {
      var gs := Decode(bytes + extra, Shape(fs)).value;
      AcceptedIsEncoding(bytes + extra, Shape(fs), gs);
      PrefixFree(fs, gs);
    }
  }
}
