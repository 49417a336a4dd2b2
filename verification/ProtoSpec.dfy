/** Commands as they travel: the frames that carry them, and what the server makes of a frame. */
module ProtoSpec {
  import opened Bytes
  import opened Wire

  datatype Command =
    | CreateGroup(name: text)
    | DropGroup(name: text)
    | Add(group: text, timestamp: nat, payload: bytes)
    | AddRange(group: text, entries: seq<(nat, bytes)>)
    | Read(group: text, id: nat)
    | ReadRange(group: text, first: nat, last: nat)
    | Remove(group: text, upTo: nat)
    | ListGroups
    | GroupStats(group: text)
    | SetKey(db: text, key: text, val: bytes, ttl: nat)
    | GetKey(db: text, key: text)
    | DelKey(db: text, key: text)
    | Keys(db: text)
    | Flush(db: text)
    | LPush(key: text, val: bytes)
    | LPushRange(key: text, vals: seq<bytes>)
    | LPop(key: text)
    | LPopRange(key: text, start: nat, end: nat)
    | LPopCount(key: text, count: nat)
    | LLen(key: text)
    | LFlush(key: text)
    | HaRegisterFollower(addr: text)
    | HaHeartBeat
    | HaSync(items: seq<bytes>)

  // ---- what the server reads ----

  function ReadPair(s: bytes): Wire.Read<(nat, bytes)> {
    var (ts, t) :- ReadU64(s);
    var (p, u) :- ReadBytes(t);
    Ok(((ts, p), u))
  }

  function ReadPairs(s: bytes): Wire.Read<seq<(nat, bytes)>> {
    var (n, t) :- ReadU32(s);
    ReadMany(n, t, ReadPair)
  }

  function ReadBlobs(s: bytes): Wire.Read<seq<bytes>> {
    var (n, t) :- ReadU32(s);
    ReadMany(n, t, ReadBytes)
  }

  function ReadTwo(s: bytes): Wire.Read<(text, text)> {
    var (a, t) :- ReadStr(s);
    var (b, u) :- ReadStr(t);
    Ok(((a, b), u))
  }

  type Parsed = Result<Command, ParseError>

  function ParseAdd(s: bytes): Parsed {
    var (g, t) :- ReadStr(s);
    var (x, u) :- ReadPair(t);
    Ok(Add(g, x.0, x.1))
  }

  function ParseAddRange(s: bytes): Parsed {
    var (g, t) :- ReadStr(s);
    var (xs, u) :- ReadPairs(t);
    Ok(AddRange(g, xs))
  }

  function ParseReadRange(s: bytes): Parsed {
    var (g, t) :- ReadStr(s);
    var (a, u) :- ReadU64(t);
    var (b, v) :- ReadU64(u);
    Ok(ReadRange(g, a, b))
  }

  /** A group and a number: `READ` and `REMOVE`. */
  function ReadNamed(s: bytes): Wire.Read<(text, nat)> {
    var (g, t) :- ReadStr(s);
    var (n, u) :- ReadU64(t);
    Ok(((g, n), u))
  }

  function ParseSet(s: bytes): Parsed {
    var (d, t) :- ReadTwo(s);
    var (x, u) :- ReadPair(t);
    Ok(SetKey(d.0, d.1, x.1, x.0))
  }

  /** The list commands carry a database name that is read and dropped. */
  function ParseList(tag: byte, s: bytes): Parsed {
    var (k, t) :- ReadTwo(s);
    match tag
    case 0x15 => var (v, _) :- ReadBytes(t); Ok(LPush(k.1, v))
    case 0x16 => var (vs, _) :- ReadBlobs(t); Ok(LPushRange(k.1, vs))
    case 0x17 => Ok(LPop(k.1))
    case 0x18 => var (a, u) :- ReadU32(t); var (b, _) :- ReadU32(u); Ok(LPopRange(k.1, a, b))
    case 0x19 => var (n, _) :- ReadU32(t); Ok(LPopCount(k.1, n))
    case 0x20 => Ok(LLen(k.1))
    case _ => Ok(LFlush(k.1))
  }

  /** What follows the tag. */
  function ParseBody(tag: byte, s: bytes): Parsed {
    match tag
    case 0x01 => var (n, _) :- ReadStr(s); Ok(CreateGroup(n))
    case 0x02 => var (n, _) :- ReadStr(s); Ok(DropGroup(n))
    case 0x03 => ParseAdd(s)
    case 0x04 => ParseAddRange(s)
    case 0x05 => var (x, _) :- ReadNamed(s); Ok(Read(x.0, x.1))
    case 0x06 => ParseReadRange(s)
    case 0x07 => var (x, _) :- ReadNamed(s); Ok(Remove(x.0, x.1))
    case 0x08 => Ok(ListGroups)
    case 0x09 => var (n, _) :- ReadStr(s); Ok(GroupStats(n))
    case 0x10 => ParseSet(s)
    case 0x11 => var (x, _) :- ReadTwo(s); Ok(GetKey(x.0, x.1))
    case 0x12 => var (x, _) :- ReadTwo(s); Ok(DelKey(x.0, x.1))
    case 0x13 => var (d, _) :- ReadStr(s); Ok(Keys(d))
    case 0x14 => var (d, _) :- ReadStr(s); Ok(Flush(d))
    case 0x22 => var (a, _) :- ReadStr(s); Ok(HaRegisterFollower(a))
    case 0x23 => Ok(HaHeartBeat)
    case 0x24 => var (xs, _) :- ReadBlobs(s); Ok(HaSync(xs))
    case _ => if 0x15 <= tag <= 0x19 || 0x20 <= tag <= 0x21 then ParseList(tag, s) else Err(UnknownTag)
  }

  /** Bytes after the last field are ignored. */
  function Parse(frame: bytes): Parsed {
    if frame == [] then Err(EmptyFrame) else ParseBody(frame[0], frame[1..])
  }

  // ---- what the clients send ----

  function Pair(x: (nat, bytes)): bytes {
    ToLe(x.0, 8) + Blob(x.1)
  }

  function Pairs(xs: seq<(nat, bytes)>): bytes {
    ToLe(|xs|, 4) + Many(xs, Pair)
  }

  function Blobs(xs: seq<bytes>): bytes {
    ToLe(|xs|, 4) + Many(xs, Blob)
  }

  /** The log, group, key-value and high-availability commands. */
  predicate HasFrame(c: Command) {
    !(c.LPush? || c.LPushRange? || c.LPop? || c.LPopRange? || c.LPopCount? || c.LLen? || c.LFlush?)
  }

  function Tag(c: Command): byte
    requires HasFrame(c)
  {
    match c
    case CreateGroup(_) => 0x01
    case DropGroup(_) => 0x02
    case Add(_, _, _) => 0x03
    case AddRange(_, _) => 0x04
    case Read(_, _) => 0x05
    case ReadRange(_, _, _) => 0x06
    case Remove(_, _) => 0x07
    case ListGroups => 0x08
    case GroupStats(_) => 0x09
    case SetKey(_, _, _, _) => 0x10
    case GetKey(_, _) => 0x11
    case DelKey(_, _) => 0x12
    case Keys(_) => 0x13
    case Flush(_) => 0x14
    case HaRegisterFollower(_) => 0x22
    case HaHeartBeat => 0x23
    case HaSync(_) => 0x24
  }

  function Body(c: Command): bytes
    requires HasFrame(c)
  {
    match c
    case CreateGroup(n) => Str(n)
    case DropGroup(n) => Str(n)
    case Add(g, ts, p) => Str(g) + Pair((ts, p))
    case AddRange(g, xs) => Str(g) + Pairs(xs)
    case Read(g, id) => Str(g) + ToLe(id, 8)
    case ReadRange(g, a, b) => Str(g) + (ToLe(a, 8) + ToLe(b, 8))
    case Remove(g, upTo) => Str(g) + ToLe(upTo, 8)
    case ListGroups => []
    case GroupStats(g) => Str(g)
    case SetKey(d, k, v, ttl) => Str(d) + Str(k) + Pair((ttl, v))
    case GetKey(d, k) => Str(d) + Str(k)
    case DelKey(d, k) => Str(d) + Str(k)
    case Keys(d) => Str(d)
    case Flush(d) => Str(d)
    case HaRegisterFollower(a) => Str(a)
    case HaHeartBeat => []
    case HaSync(xs) => Blobs(xs)
  }

  function FrameOf(c: Command): bytes
    requires HasFrame(c)
  {
    [Tag(c)] + Body(c)
  }

  // ---- what fits ----

  predicate PairFits(x: (nat, bytes)) {
    x.0 <= U64_MAX && FitsU32(x.1)
  }

  predicate PairsFit(xs: seq<(nat, bytes)>) {
    |xs| < 0x1_0000_0000 && forall i :: 0 <= i < |xs| ==> PairFits(xs[i])
  }

  predicate BlobsFit(xs: seq<bytes>) {
    |xs| < 0x1_0000_0000 && forall i :: 0 <= i < |xs| ==> FitsU32(xs[i])
  }

  /** Strings within 16-bit lengths, payloads and counts within 32 bits, numbers within 64 bits. */
  predicate Sendable(c: Command) {
    match c
    case CreateGroup(n) => FitsU16(n)
    case DropGroup(n) => FitsU16(n)
    case Add(g, ts, p) => FitsU16(g) && PairFits((ts, p))
    case AddRange(g, xs) => FitsU16(g) && PairsFit(xs)
    case Read(g, id) => FitsU16(g) && id <= U64_MAX
    case ReadRange(g, a, b) => FitsU16(g) && a <= U64_MAX && b <= U64_MAX
    case Remove(g, upTo) => FitsU16(g) && upTo <= U64_MAX
    case ListGroups => true
    case GroupStats(g) => FitsU16(g)
    case SetKey(d, k, v, ttl) => FitsU16(d) && FitsU16(k) && PairFits((ttl, v))
    case GetKey(d, k) => FitsU16(d) && FitsU16(k)
    case DelKey(d, k) => FitsU16(d) && FitsU16(k)
    case Keys(d) => FitsU16(d)
    case Flush(d) => FitsU16(d)
    case HaRegisterFollower(a) => FitsU16(a)
    case HaHeartBeat => true
    case HaSync(xs) => BlobsFit(xs)
    case _ => false
  }

  // ---- the composite fields read back, and only they do ----

  lemma PairBack(x: (nat, bytes), tail: bytes)
    requires PairFits(x)
    ensures ReadPair(Pair(x) + tail) == Ok((x, tail))
  {
    hide ReadU64, ReadBytes, Blob, ToLe;
    assert Pair(x) + tail == ToLe(x.0, 8) + (Blob(x.1) + tail);
    U64Back(x.0, Blob(x.1) + tail);
    BlobBack(x.1, tail);
  }

  lemma PairExact(s: bytes)
    ensures ReadPair(s).Ok? ==> PairFits(ReadPair(s).value.0) && Pair(ReadPair(s).value.0) + ReadPair(s).value.1 == s
  {
    hide ReadU64, ReadBytes, Blob, ToLe;
    U64Exact(s);
    if ReadPair(s).Ok? {
      var (ts, t) := ReadU64(s).value;
      BytesExact(t);
      var (p, u) := ReadBytes(t).value;
      assert ToLe(ts, 8) + Blob(p) + u == ToLe(ts, 8) + (Blob(p) + u);
    }
  }

  lemma PairsBack(xs: seq<(nat, bytes)>, tail: bytes)
    requires PairsFit(xs)
    ensures ReadPairs(Pairs(xs) + tail) == Ok((xs, tail))
  {
    hide ReadU32, ReadPair, Pair, ToLe, Many, ReadMany;
    assert Pairs(xs) + tail == ToLe(|xs|, 4) + (Many(xs, Pair) + tail);
    U32Back(|xs|, Many(xs, Pair) + tail);
    assert ReadsBack(ReadPair, Pair, PairFits) by {
      forall x, t | PairFits(x) ensures ReadPair(Pair(x) + t) == Ok((x, t)) {
        PairBack(x, t);
      }
    }
    ManyBack(xs, tail, ReadPair, Pair, PairFits);
  }

  lemma PairsExact(s: bytes)
    ensures ReadPairs(s).Ok? ==> PairsFit(ReadPairs(s).value.0) && Pairs(ReadPairs(s).value.0) + ReadPairs(s).value.1 == s
  {
    hide ReadU32, ReadPair, Pair, ToLe, Many, ReadMany;
    U32Exact(s);
    if ReadPairs(s).Ok? {
      var (n, t) := ReadU32(s).value;
      assert ReadsExactly(ReadPair, Pair, PairFits) by {
        forall u | ReadPair(u).Ok?
          ensures PairFits(ReadPair(u).value.0) && Pair(ReadPair(u).value.0) + ReadPair(u).value.1 == u {
          PairExact(u);
        }
      }
      ManyExact(n, t, ReadPair, Pair, PairFits);
      var (xs, u) := ReadMany(n, t, ReadPair).value;
      assert ToLe(n, 4) + Many(xs, Pair) + u == ToLe(n, 4) + (Many(xs, Pair) + u);
    }
  }

  lemma BlobsBack(xs: seq<bytes>, tail: bytes)
    requires BlobsFit(xs)
    ensures ReadBlobs(Blobs(xs) + tail) == Ok((xs, tail))
  {
    hide ReadU32, ReadBytes, Blob, ToLe, Many, ReadMany;
    assert Blobs(xs) + tail == ToLe(|xs|, 4) + (Many(xs, Blob) + tail);
    U32Back(|xs|, Many(xs, Blob) + tail);
    assert ReadsBack(ReadBytes, Blob, FitsU32) by {
      forall x, t | FitsU32(x) ensures ReadBytes(Blob(x) + t) == Ok((x, t)) {
        BlobBack(x, t);
      }
    }
    ManyBack(xs, tail, ReadBytes, Blob, FitsU32);
  }

  lemma BlobsExact(s: bytes)
    ensures ReadBlobs(s).Ok? ==> BlobsFit(ReadBlobs(s).value.0) && Blobs(ReadBlobs(s).value.0) + ReadBlobs(s).value.1 == s
  {
    hide ReadU32, ReadBytes, Blob, ToLe, Many, ReadMany;
    U32Exact(s);
    if ReadBlobs(s).Ok? {
      var (n, t) := ReadU32(s).value;
      assert ReadsExactly(ReadBytes, Blob, FitsU32) by {
        forall u | ReadBytes(u).Ok?
          ensures FitsU32(ReadBytes(u).value.0) && Blob(ReadBytes(u).value.0) + ReadBytes(u).value.1 == u {
          BytesExact(u);
        }
      }
      ManyExact(n, t, ReadBytes, Blob, FitsU32);
      var (xs, u) := ReadMany(n, t, ReadBytes).value;
      assert ToLe(n, 4) + Many(xs, Blob) + u == ToLe(n, 4) + (Many(xs, Blob) + u);
    }
  }

  lemma TwoBack(a: text, b: text, tail: bytes)
    requires FitsU16(a) && FitsU16(b)
    ensures ReadTwo(Str(a) + Str(b) + tail) == Ok(((a, b), tail))
  {
    hide ReadStr, Str, Utf8;
    assert Str(a) + Str(b) + tail == Str(a) + (Str(b) + tail);
    StrBack(a, Str(b) + tail);
    StrBack(b, tail);
  }

  lemma TwoExact(s: bytes)
    ensures ReadTwo(s).Ok? ==> var (x, t) := ReadTwo(s).value; FitsU16(x.0) && FitsU16(x.1) && Str(x.0) + Str(x.1) + t == s
  {
    hide ReadStr, Str, Utf8;
    StrExact(s);
    if ReadTwo(s).Ok? {
      var (a, t) := ReadStr(s).value;
      StrExact(t);
      var (b, u) := ReadStr(t).value;
      assert Str(a) + Str(b) + u == Str(a) + (Str(b) + u);
    }
  }

  lemma NamedBack(g: text, n: nat, tail: bytes)
    requires FitsU16(g) && n <= U64_MAX
    ensures ReadNamed(Str(g) + ToLe(n, 8) + tail) == Ok(((g, n), tail))
  {
    hide ReadStr, Str, Utf8, ReadU64, ToLe;
    assert Str(g) + ToLe(n, 8) + tail == Str(g) + (ToLe(n, 8) + tail);
    StrBack(g, ToLe(n, 8) + tail);
    U64Back(n, tail);
  }

  lemma NamedExact(s: bytes)
    ensures ReadNamed(s).Ok? ==>
      var (x, t) := ReadNamed(s).value; FitsU16(x.0) && x.1 <= U64_MAX && Str(x.0) + ToLe(x.1, 8) + t == s
  {
    hide ReadStr, Str, Utf8, ReadU64, ToLe;
    StrExact(s);
    if ReadNamed(s).Ok? {
      var (g, t) := ReadStr(s).value;
      U64Exact(t);
      var (n, u) := ReadU64(t).value;
      assert Str(g) + ToLe(n, 8) + u == Str(g) + (ToLe(n, 8) + u);
    }
  }

  lemma ReadRangeBack(g: text, a: nat, b: nat, tail: bytes)
    requires FitsU16(g) && a <= U64_MAX && b <= U64_MAX
    ensures ParseReadRange(Str(g) + (ToLe(a, 8) + ToLe(b, 8)) + tail) == Ok(ReadRange(g, a, b))
  {
    hide ReadStr, Str, Utf8, ReadU64, ToLe;
    assert Str(g) + (ToLe(a, 8) + ToLe(b, 8)) + tail == Str(g) + (ToLe(a, 8) + (ToLe(b, 8) + tail));
    StrBack(g, ToLe(a, 8) + (ToLe(b, 8) + tail));
    U64Back(a, ToLe(b, 8) + tail);
    U64Back(b, tail);
  }

  /** What follows the tag of a command's frame parses back to the command. */
  lemma BodyBack(c: Command, tail: bytes)
    requires HasFrame(c) && Sendable(c)
    ensures ParseBody(Tag(c), Body(c) + tail) == Ok(c)
  {
    hide ReadStr, Str, Utf8, ReadU64, ToLe, ReadPair, Pair, ReadPairs, Pairs, ReadBlobs, Blobs, ReadTwo, ReadNamed, PairsFit, BlobsFit;
    match c {
      case CreateGroup(n) => StrBack(n, tail);
      case DropGroup(n) => StrBack(n, tail);
      case Add(g, ts, p) =>
        assert Body(c) + tail == Str(g) + (Pair((ts, p)) + tail);
        StrBack(g, Pair((ts, p)) + tail);
        PairBack((ts, p), tail);
      case AddRange(g, xs) =>
        assert Body(c) + tail == Str(g) + (Pairs(xs) + tail);
        StrBack(g, Pairs(xs) + tail);
        PairsBack(xs, tail);
      case Read(g, id) => NamedBack(g, id, tail);
      case ReadRange(g, a, b) => ReadRangeBack(g, a, b, tail);
      case Remove(g, upTo) => NamedBack(g, upTo, tail);
      case ListGroups =>
      case GroupStats(g) => StrBack(g, tail);
      case SetKey(d, k, v, ttl) =>
        assert Body(c) + tail == Str(d) + Str(k) + (Pair((ttl, v)) + tail);
        TwoBack(d, k, Pair((ttl, v)) + tail);
        PairBack((ttl, v), tail);
      case GetKey(d, k) => TwoBack(d, k, tail);
      case DelKey(d, k) => TwoBack(d, k, tail);
      case Keys(d) => StrBack(d, tail);
      case Flush(d) => StrBack(d, tail);
      case HaRegisterFollower(a) => StrBack(a, tail);
      case HaHeartBeat =>
      case HaSync(xs) => BlobsBack(xs, tail);
    }
  }

  lemma AddExact(s: bytes)
    ensures ParseAdd(s).Ok? ==> var c := ParseAdd(s).value; c.Add? && Sendable(c) && Body(c) <= s
  {
    hide ReadStr, Str, Utf8, ReadU64, ToLe, ReadPair, Pair, ReadPairs, Pairs, ReadBlobs, Blobs, ReadTwo, ReadNamed, PairsFit, BlobsFit;
    StrExact(s);
    if ParseAdd(s).Ok? {
      var (g, t) := ReadStr(s).value;
      PairExact(t);
      var (x, u) := ReadPair(t).value;
      assert Str(g) + Pair(x) + u == Str(g) + (Pair(x) + u);
    }
  }

  lemma AddRangeExact(s: bytes)
    ensures ParseAddRange(s).Ok? ==> var c := ParseAddRange(s).value; c.AddRange? && Sendable(c) && Body(c) <= s
  {
    hide ReadStr, Str, Utf8, ReadU64, ToLe, ReadPair, Pair, ReadPairs, Pairs, ReadBlobs, Blobs, ReadTwo, ReadNamed, PairsFit, BlobsFit;
    StrExact(s);
    if ParseAddRange(s).Ok? {
      var (g, t) := ReadStr(s).value;
      PairsExact(t);
      var (xs, u) := ReadPairs(t).value;
      assert Str(g) + Pairs(xs) + u == Str(g) + (Pairs(xs) + u);
    }
  }

  lemma ReadRangeExact(s: bytes)
    ensures ParseReadRange(s).Ok? ==> var c := ParseReadRange(s).value; c.ReadRange? && Sendable(c) && Body(c) <= s
  {
    hide ReadStr, Str, Utf8, ReadU64, ToLe, ReadPair, Pair, ReadPairs, Pairs, ReadBlobs, Blobs, ReadTwo, ReadNamed, PairsFit, BlobsFit;
    StrExact(s);
    if ParseReadRange(s).Ok? {
      var (g, t) := ReadStr(s).value;
      U64Exact(t);
      var (a, u) := ReadU64(t).value;
      U64Exact(u);
      var (b, v) := ReadU64(u).value;
      assert Str(g) + (ToLe(a, 8) + ToLe(b, 8)) + v == Str(g) + (ToLe(a, 8) + (ToLe(b, 8) + v));
    }
  }

  lemma SetExact(s: bytes)
    ensures ParseSet(s).Ok? ==> var c := ParseSet(s).value; c.SetKey? && Sendable(c) && Body(c) <= s
  {
    hide ReadStr, Str, Utf8, ReadU64, ToLe, ReadPair, Pair, ReadPairs, Pairs, ReadBlobs, Blobs, ReadTwo, ReadNamed, PairsFit, BlobsFit;
    TwoExact(s);
    if ParseSet(s).Ok? {
      var (d, t) := ReadTwo(s).value;
      PairExact(t);
      var (x, u) := ReadPair(t).value;
      assert Str(d.0) + Str(d.1) + Pair(x) + u == Str(d.0) + Str(d.1) + (Pair(x) + u);
    }
  }

  /** What parses is what a frame of that command starts with, and its fields are within their bounds. */
  lemma BodyExact(tag: byte, s: bytes)
    ensures ParseBody(tag, s).Ok? && HasFrame(ParseBody(tag, s).value) ==>
      var c := ParseBody(tag, s).value; Tag(c) == tag && Sendable(c) && Body(c) <= s
  {
    hide ReadStr, Str, Utf8, ReadU64, ToLe, ReadPair, Pair, ReadPairs, Pairs, ReadBlobs, Blobs, ReadTwo, ReadNamed, PairsFit, BlobsFit, ParseAdd, ParseAddRange, ParseReadRange, ParseSet;
    match tag {
      case 0x01 => StrExact(s);
      case 0x02 => StrExact(s);
      case 0x03 => AddExact(s);
      case 0x04 => AddRangeExact(s);
      case 0x05 => NamedExact(s);
      case 0x06 => ReadRangeExact(s);
      case 0x07 => NamedExact(s);
      case 0x09 => StrExact(s);
      case 0x10 => SetExact(s);
      case 0x11 => TwoExact(s);
      case 0x12 => TwoExact(s);
      case 0x13 => StrExact(s);
      case 0x14 => StrExact(s);
      case 0x22 => StrExact(s);
      case 0x24 => BlobsExact(s);
      case _ =>
    }
  }

  lemma FramePrefix(frame: bytes, c: Command)
    requires HasFrame(c) && frame != []
    ensures FrameOf(c) <= frame <==> Tag(c) == frame[0] && Body(c) <= frame[1..]
  {
    hide Body, Tag;
    assert frame == [frame[0]] + frame[1..];
    if Tag(c) == frame[0] && Body(c) <= frame[1..] {
      assert frame == [Tag(c)] + Body(c) + frame[1 + |Body(c)|..];
    }
    if FrameOf(c) <= frame {
      assert frame[0] == FrameOf(c)[0];
      forall i | 0 <= i < |Body(c)| ensures frame[1..][i] == Body(c)[i] {
        assert frame[1 + i] == FrameOf(c)[1 + i];
      }
    }
  }

  lemma BodyPrefixBack(c: Command, s: bytes)
    requires HasFrame(c) && Sendable(c) && Body(c) <= s
    ensures ParseBody(Tag(c), s) == Ok(c)
  {
    hide ParseBody, Body, Sendable, Tag;
    BodyBack(c, s[|Body(c)|..]);
    assert s == Body(c) + s[|Body(c)|..];
  }

  /** The server reads a frame as the command `c` if and only if the frame is the one a client builds for `c`, with
      every field within its bounds, whatever may follow. */
  lemma ParseIff(frame: bytes, c: Command)
    requires HasFrame(c)
    ensures Parse(frame) == Ok(c) <==> Sendable(c) && FrameOf(c) <= frame
  {
    hide ParseBody, Body, Sendable, Tag;
    if frame != [] {
      FramePrefix(frame, c);
      BodyExact(frame[0], frame[1..]);
      hide FrameOf;
      if Sendable(c) && Tag(c) == frame[0] && Body(c) <= frame[1..] {
        BodyPrefixBack(c, frame[1..]);
      }
    }
  }

  /** A frame is refused for being empty, or for its tag, if and only if it is empty, or its tag is none of the
      twenty-four. */
  lemma TagRefusedIff(frame: bytes)
    ensures Parse(frame) == Err(EmptyFrame) <==> frame == []
    ensures Parse(frame) == Err(UnknownTag) <==>
              frame != [] && !(0x01 <= frame[0] <= 0x09 || 0x10 <= frame[0] <= 0x19 || 0x20 <= frame[0] <= 0x24)
  {
    if frame != [] {
      FieldsEnd(frame[0], frame[1..]);
    }
    hide ParseBody;
  }

  lemma FieldsEnd(tag: byte, s: bytes)
    ensures 0x01 <= tag <= 0x09 || 0x10 <= tag <= 0x19 || 0x20 <= tag <= 0x24 ==>
              (ParseBody(tag, s).Err? ==> Ends(ParseBody(tag, s).error))
    ensures !(0x01 <= tag <= 0x09 || 0x10 <= tag <= 0x19 || 0x20 <= tag <= 0x24) ==> ParseBody(tag, s) == Err(UnknownTag)
  {
    hide ReadStr, ReadU32, ReadU64, ReadBytes, ReadPair, ReadTwo, ReadNamed, ReadPairs, ReadBlobs;
    ReadersEnd();
    ListsEnd();
    PartsEnd(tag, s);
    hide ParseAdd, ParseAddRange, ParseReadRange, ParseSet, ParseList;
  }

  lemma PartsEnd(tag: byte, s: bytes)
    ensures ParseAdd(s).Err? ==> Ends(ParseAdd(s).error)
    ensures ParseAddRange(s).Err? ==> Ends(ParseAddRange(s).error)
    ensures ParseReadRange(s).Err? ==> Ends(ParseReadRange(s).error)
    ensures ParseSet(s).Err? ==> Ends(ParseSet(s).error)
    ensures ParseList(tag, s).Err? ==> Ends(ParseList(tag, s).error)
  {
    hide ParseList;
    ReadersEnd();
    ListsEnd();
    ListPartEnds(tag, s);
    hide FromLe, Utf8, ReadMany, ReadU32, ReadBytes;
  }

  lemma ListPartEnds(tag: byte, s: bytes)
    ensures ParseList(tag, s).Err? ==> Ends(ParseList(tag, s).error)
  {
    ReadersEnd();
    ListsEnd();
    hide FromLe, Utf8, ReadMany, ReadStr, ReadPair, ReadPairs;
  }

  lemma ReadersEnd()
    ensures forall s :: ReadStr(s).Err? ==> Ends(ReadStr(s).error)
    ensures forall s :: ReadU32(s).Err? ==> Ends(ReadU32(s).error)
    ensures forall s :: ReadU64(s).Err? ==> Ends(ReadU64(s).error)
    ensures forall s :: ReadBytes(s).Err? ==> Ends(ReadBytes(s).error)
    ensures forall s :: ReadPair(s).Err? ==> Ends(ReadPair(s).error)
    ensures forall s :: ReadTwo(s).Err? ==> Ends(ReadTwo(s).error)
    ensures forall s :: ReadNamed(s).Err? ==> Ends(ReadNamed(s).error)
  {
    hide FromLe, Utf8;
  }

  lemma ListsEnd()
    ensures forall s :: ReadPairs(s).Err? ==> Ends(ReadPairs(s).error)
    ensures forall s :: ReadBlobs(s).Err? ==> Ends(ReadBlobs(s).error)
  {
    ReadersEnd();
    hide ReadStr, ReadU32, ReadU64, ReadBytes, ReadPair, ReadTwo, ReadNamed, ReadMany;
    forall s | ReadPairs(s).Err? ensures Ends(ReadPairs(s).error) {
      if ReadU32(s).Ok? {
        ManyEnds(ReadU32(s).value.0, ReadU32(s).value.1, ReadPair);
      }
    }
    forall s | ReadBlobs(s).Err? ensures Ends(ReadBlobs(s).error) {
      if ReadU32(s).Ok? {
        ManyEnds(ReadU32(s).value.0, ReadU32(s).value.1, ReadBytes);
      }
    }
  }

  lemma ParseExactly(frame: bytes)
    ensures forall c :: HasFrame(c) ==> (Parse(frame) == Ok(c) <==> Sendable(c) && FrameOf(c) <= frame)
  {
    hide Parse, HasFrame, Sendable, FrameOf;
    forall c | HasFrame(c) ensures Parse(frame) == Ok(c) <==> Sendable(c) && FrameOf(c) <= frame {
      ParseIff(frame, c);
    }
  }

  /** Request round trip: the client's frame for a command parses as that command. */
  lemma RequestRoundTrip(c: Command)
    requires HasFrame(c) && Sendable(c)
    ensures Parse(FrameOf(c)) == Ok(c)
  {
    hide Parse, FrameOf, Sendable;
    ParseIff(FrameOf(c), c);
  }
}
