/** The fields frames are made of: how they are written, how they are read back, and that the two agree. */
module Wire {
  import opened Bytes

  // ---- text ----

  predicate Continuation(b: byte) {
    0x80 <= b <= 0xBF
  }

  /** How many bytes the well-formed UTF-8 sequence at the head takes (section 4 of RFC 3629); 0 when there is none. */
  function Utf8Head(s: bytes): (n: nat)
    ensures n <= |s|
  {
    if s == [] then 0
    else if s[0] <= 0x7F then 1
    else if 0xC2 <= s[0] <= 0xDF then
      if |s| >= 2 && Continuation(s[1]) then 2 else 0
    else if 0xE0 <= s[0] <= 0xEF then
      if |s| >= 3 && Continuation(s[1]) && Continuation(s[2]) && (s[0] == 0xE0 ==> s[1] >= 0xA0) && (s[0] == 0xED ==> s[1] <= 0x9F)
      then 3 else 0
    else if 0xF0 <= s[0] <= 0xF4 then
      if && |s| >= 4 && Continuation(s[1]) && Continuation(s[2]) && Continuation(s[3])
         && (s[0] == 0xF0 ==> s[1] >= 0x90) && (s[0] == 0xF4 ==> s[1] <= 0x8F)
      then 4 else 0
    else 0
  }

  predicate Utf8(s: bytes)
    decreases |s|
  {
    s == [] || (Utf8Head(s) > 0 && Utf8(s[Utf8Head(s)..]))
  }

  /** Text, as its UTF-8 bytes. */
  type text = s: bytes | Utf8(s)

  lemma {:induction false} AsciiIsUtf8(s: bytes)
    requires forall i :: 0 <= i < |s| ==> s[i] < 128
    ensures Utf8(s)
    decreases |s|
  {
    if s != [] {
      AsciiIsUtf8(s[1..]);
    }
  }

  // ---- reading ----

  datatype ParseError = EofU8 | EofU16 | EofU32 | EofU64 | EofString | InvalidUtf8 | EofBytes | EmptyFrame | UnknownTag

  /** What was read, and what is left. */
  type Read<T> = Result<(T, bytes), ParseError>

  function ReadU16(s: bytes): Read<nat> {
    if |s| < 2 then Err(EofU16) else Ok((FromLe(s[..2]), s[2..]))
  }

  function ReadU32(s: bytes): (r: Read<nat>)
    ensures r.Ok? ==> |r.value.1| < |s|
  {
    if |s| < 4 then Err(EofU32) else Ok((FromLe(s[..4]), s[4..]))
  }

  function ReadU64(s: bytes): Read<nat> {
    if |s| < 8 then Err(EofU64) else Ok((FromLe(s[..8]), s[8..]))
  }

  function ReadStr(s: bytes): Read<text> {
    var (n, t) :- ReadU16(s);
    if |t| < n then Err(EofString)
    else if !Utf8(t[..n]) then Err(InvalidUtf8)
    else Ok((t[..n], t[n..]))
  }

  function ReadBytes(s: bytes): Read<bytes> {
    var (n, t) :- ReadU32(s);
    if |t| < n then Err(EofBytes) else Ok((t[..n], t[n..]))
  }

  /** Reads `n` items one after the other. */
  function ReadMany<T>(n: nat, s: bytes, item: bytes -> Read<T>): Read<seq<T>> {
    if n == 0 then Ok(([], s))
    else
      var (x, t) :- item(s);
      var (xs, u) :- ReadMany(n - 1, t, item);
      Ok(([x] + xs, u))
  }

  // ---- writing ----

  /** A length field keeps only the bytes it has room for. */
  function Str(s: bytes): bytes {
    ToLe(|s|, 2) + s
  }

  function Blob(s: bytes): bytes {
    ToLe(|s|, 4) + s
  }

  function Many<T>(xs: seq<T>, item: T -> bytes): bytes {
    if xs == [] then [] else item(xs[0]) + Many(xs[1..], item)
  }

  predicate FitsU16(s: bytes) {
    |s| < 0x1_0000
  }

  predicate FitsU32(s: bytes) {
    |s| < 0x1_0000_0000
  }

  // ---- what is written reads back ----

  lemma U16Back(v: u16, tail: bytes)
    ensures ReadU16(ToLe(v, 2) + tail) == Ok((v, tail))
  {
    Seam(ToLe(v, 2), tail);
    Le16(v);
  }

  lemma U32Back(v: u32, tail: bytes)
    ensures ReadU32(ToLe(v, 4) + tail) == Ok((v, tail))
  {
    Seam(ToLe(v, 4), tail);
    Le32(v);
  }

  lemma U64Back(v: u64, tail: bytes)
    ensures ReadU64(ToLe(v, 8) + tail) == Ok((v, tail))
  {
    Seam(ToLe(v, 8), tail);
    Le64(v);
  }

  lemma StrBack(s: text, tail: bytes)
    requires FitsU16(s)
    ensures ReadStr(Str(s) + tail) == Ok((s, tail))
  {
    hide ReadU16, Utf8, ToLe;
    assert Str(s) + tail == ToLe(|s|, 2) + (s + tail);
    U16Back(|s|, s + tail);
    Seam(s, tail);
  }

  lemma BlobBack(s: bytes, tail: bytes)
    requires FitsU32(s)
    ensures ReadBytes(Blob(s) + tail) == Ok((s, tail))
  {
    hide ReadU32, ToLe;
    assert Blob(s) + tail == ToLe(|s|, 4) + (s + tail);
    U32Back(|s|, s + tail);
    Seam(s, tail);
  }

  /** Every good item reads back as itself, whatever follows it. */
  ghost predicate ReadsBack<T(!new)>(read: bytes -> Read<T>, write: T -> bytes, good: T -> bool) {
    forall x, tail :: good(x) ==> read(write(x) + tail) == Ok((x, tail))
  }

  lemma {:induction false} ManyBack<T(!new)>(xs: seq<T>, tail: bytes, read: bytes -> Read<T>, write: T -> bytes, good: T -> bool)
    requires ReadsBack(read, write, good) && forall i :: 0 <= i < |xs| ==> good(xs[i])
    ensures ReadMany(|xs|, Many(xs, write) + tail, read) == Ok((xs, tail))
    decreases |xs|
  {
    if xs == [] {
      assert Many(xs, write) + tail == tail;
    } else {
      ManyBack(xs[1..], tail, read, write, good);
      assert Many(xs, write) + tail == write(xs[0]) + (Many(xs[1..], write) + tail);
      assert xs == [xs[0]] + xs[1..];
    }
  }

  // ---- what reads was written ----

  lemma LowAndHigh(b: byte, v: nat)
    ensures (b + 256 * v) % 256 == b && (b + 256 * v) / 256 == v
  {
  }

  lemma {:induction false} ToLeFromLe(s: bytes)
    ensures ToLe(FromLe(s), |s|) == s
    decreases |s|
  {
    if s != [] {
      ToLeFromLe(s[1..]);
      var b, v := s[0], FromLe(s[1..]);
      LowAndHigh(b, v);
      ToLeSplit(b, v, |s|);
      hide ToLe;
      assert s == [b] + s[1..];
    }
  }

  lemma ToLeSplit(b: byte, v: nat, n: nat)
    requires n > 0
    ensures ToLe(b + 256 * v, n) == [b] + ToLe(v, n - 1)
  {
    LowAndHigh(b, v);
  }

  lemma U16Exact(s: bytes)
    ensures ReadU16(s).Ok? ==> var (v, t) := ReadU16(s).value; v < 0x1_0000 && ToLe(v, 2) + t == s
  {
    if |s| >= 2 {
      ToLeFromLe(s[..2]);
      FromLeBound(s[..2]);
      assert Pow256(2) == 0x1_0000;
      assert s[..2] + s[2..] == s;
    }
  }

  lemma U32Exact(s: bytes)
    ensures ReadU32(s).Ok? ==> var (v, t) := ReadU32(s).value; v < 0x1_0000_0000 && ToLe(v, 4) + t == s
  {
    if |s| >= 4 {
      ToLeFromLe(s[..4]);
      FromLeBound(s[..4]);
      assert Pow256(2) == 0x1_0000;
      assert Pow256(4) == 0x1_0000_0000;
      assert s[..4] + s[4..] == s;
    }
  }

  lemma U64Exact(s: bytes)
    ensures ReadU64(s).Ok? ==> var (v, t) := ReadU64(s).value; v <= U64_MAX && ToLe(v, 8) + t == s
  {
    if |s| >= 8 {
      ToLeFromLe(s[..8]);
      FromLeBound(s[..8]);
      Pow64();
      assert s[..8] + s[8..] == s;
    }
  }

  lemma Pow64()
    ensures Pow256(8) == U64_MAX + 1
  {
    assert Pow256(2) == 0x1_0000;
    assert Pow256(4) == 0x1_0000_0000;
    assert Pow256(6) == 0x1_0000_0000_0000;
  }

  lemma StrExact(s: bytes)
    ensures ReadStr(s).Ok? ==> var (v, t) := ReadStr(s).value; FitsU16(v) && Str(v) + t == s
  {
    hide ReadU16, Utf8, ToLe;
    U16Exact(s);
    if ReadStr(s).Ok? {
      var (n, u) := ReadU16(s).value;
      assert u == u[..n] + u[n..];
      assert Str(u[..n]) + u[n..] == ToLe(n, 2) + u;
    }
  }

  lemma BytesExact(s: bytes)
    ensures ReadBytes(s).Ok? ==> var (v, t) := ReadBytes(s).value; FitsU32(v) && Blob(v) + t == s
  {
    hide ReadU32, ToLe;
    U32Exact(s);
    if ReadBytes(s).Ok? {
      var (n, u) := ReadU32(s).value;
      assert u == u[..n] + u[n..];
      assert Blob(u[..n]) + u[n..] == ToLe(n, 4) + u;
    }
  }

  ghost predicate ReadsExactly<T(!new)>(read: bytes -> Read<T>, write: T -> bytes, good: T -> bool) {
    forall s :: read(s).Ok? ==> good(read(s).value.0) && write(read(s).value.0) + read(s).value.1 == s
  }

  lemma {:induction false} ManyExact<T(!new)>(n: nat, s: bytes, read: bytes -> Read<T>, write: T -> bytes, good: T -> bool)
    requires ReadsExactly(read, write, good)
    ensures ReadMany(n, s, read).Ok? ==>
      var (xs, t) := ReadMany(n, s, read).value;
      |xs| == n && (forall i :: 0 <= i < |xs| ==> good(xs[i])) && Many(xs, write) + t == s
    decreases n
  {
    if n > 0 && ReadMany(n, s, read).Ok? {
      var (x, t) := read(s).value;
      ManyExact(n - 1, t, read, write, good);
      var (xs, u) := ReadMany(n - 1, t, read).value;
      assert ([x] + xs)[1..] == xs;
      assert write(x) + (Many(xs, write) + u) == Many([x] + xs, write) + u;
    }
  }

  // ---- what does not read ----

  function Length16(s: bytes): nat
    requires |s| >= 2
  {
    s[0] as int + 256 * (s[1] as int)
  }

  function Length32(s: bytes): nat
    requires |s| >= 4
  {
    Length16(s[..2]) + 0x1_0000 * Length16(s[2..4])
  }

  lemma TwoBytes(s: bytes)
    requires |s| >= 2
    ensures FromLe(s[..2]) == Length16(s)
  {
    assert s[..2][1..] == [s[1]] && [s[1]][1..] == [];
    assert FromLe([s[1]]) == s[1];
  }

  lemma FourBytes(s: bytes)
    requires |s| >= 4
    ensures FromLe(s[..4]) == Length32(s)
  {
    assert s[..4][1..] == s[1..4] && s[1..4][1..] == s[2..4] == s[2..4][..2];
    TwoBytes(s[..2]);
    TwoBytes(s[2..4]);
    assert FromLe(s[..4]) == s[0] as int + 256 * FromLe(s[1..4]);
    assert FromLe(s[1..4]) == s[1] as int + 256 * FromLe(s[2..4]);
    hide FromLe;
  }

  /** A string fails to read in three ways: no room for its length, fewer bytes than its length says, or bytes that are
      not UTF-8. */
  lemma StrFailsIff(s: bytes)
    ensures ReadStr(s) == Err(EofU16) <==> |s| < 2
    ensures ReadStr(s) == Err(EofString) <==> |s| >= 2 && |s| < 2 + Length16(s)
    ensures ReadStr(s) == Err(InvalidUtf8) <==> |s| >= 2 && |s| >= 2 + Length16(s) && !Utf8(s[2..2 + Length16(s)])
    ensures ReadStr(s).Ok? <==> |s| >= 2 && |s| >= 2 + Length16(s) && Utf8(s[2..2 + Length16(s)])
  {
    hide Utf8, FromLe;
    if |s| >= 2 {
      TwoBytes(s);
      if |s| >= 2 + Length16(s) {
        assert s[2..][..Length16(s)] == s[2..2 + Length16(s)];
      }
    }
  }

  /** A payload fails to read in two. */
  lemma BytesFailIff(s: bytes)
    ensures ReadBytes(s) == Err(EofU32) <==> |s| < 4
    ensures ReadBytes(s) == Err(EofBytes) <==> |s| >= 4 && |s| < 4 + Length32(s)
    ensures ReadBytes(s).Ok? <==> |s| >= 4 && |s| >= 4 + Length32(s)
  {
    hide FromLe;
    if |s| >= 4 {
      FourBytes(s);
    }
  }

  predicate Ends(e: ParseError) {
    e != EmptyFrame && e != UnknownTag
  }

  lemma {:induction false} ManyEnds<T>(n: nat, s: bytes, read: bytes -> Read<T>)
    requires forall t :: read(t).Err? ==> Ends(read(t).error)
    ensures ReadMany(n, s, read).Err? ==> Ends(ReadMany(n, s, read).error)
  {
    if n > 0 && read(s).Ok? {
      ManyEnds(n - 1, read(s).value.1, read);
    }
  }

  // ---- one item at a time ----

  /** What has been read so far, put in front of what is still to come. */
  ghost function Then<T>(done: seq<T>, r: Read<seq<T>>): Read<seq<T>> {
    if r.Ok? then Ok((done + r.value.0, r.value.1)) else r
  }

  lemma ThenStep<T>(done: seq<T>, n: nat, s: bytes, item: bytes -> Read<T>)
    requires n > 0
    ensures Then(done, ReadMany(n, s, item)) ==
            if item(s).Ok? then Then(done + [item(s).value.0], ReadMany(n - 1, item(s).value.1, item)) else Err(item(s).error)
  {
    if item(s).Ok? {
      var (x, t) := item(s).value;
      if ReadMany(n - 1, t, item).Ok? {
        var xs := ReadMany(n - 1, t, item).value.0;
        assert done + ([x] + xs) == done + [x] + xs;
      }
    }
  }

  lemma ThenNothing<T>(r: Read<seq<T>>)
    ensures Then([], r) == r
  {
    if r.Ok? {
      assert [] + r.value.0 == r.value.0;
    }
  }

  lemma NoneLeft<T>(s: bytes, item: bytes -> Read<T>)
    ensures ReadMany(0, s, item) == Ok(([], s))
  {
  }

  lemma NoneWritten<T>(xs: seq<T>, item: T -> bytes)
    requires xs == []
    ensures Many(xs, item) == []
  {
  }

  lemma {:induction false} ManyAppend<T>(a: seq<T>, b: seq<T>, item: T -> bytes)
    ensures Many(a + b, item) == Many(a, item) + Many(b, item)
    decreases |a|
  {
    if a == [] {
      assert a + b == b;
    } else {
      ManyAppend(a[1..], b, item);
      assert (a + b)[1..] == a[1..] + b;
      assert Many(a + b, item) == item(a[0]) + Many(a[1..] + b, item);
    }
  }

  lemma OneMore<T>(xs: seq<T>, i: nat, item: T -> bytes)
    requires i < |xs|
    ensures Many(xs[..i + 1], item) == Many(xs[..i], item) + item(xs[i])
  {
    assert xs[..i + 1] == xs[..i] + [xs[i]];
    ManyAppend(xs[..i], [xs[i]], item);
    assert Many([xs[i]], item) == item(xs[i]);
  }
}
