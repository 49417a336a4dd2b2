/** List commands as the server takes them off the wire: a database name, which is read and dropped, then the key. */
module ListProto {
  import opened Bytes
  import opened Wire
  import opened ProtoSpec

  function ServerTag(c: Command): byte
    requires !HasFrame(c)
  {
    match c
    case LPush(_, _) => 0x15
    case LPushRange(_, _) => 0x16
    case LPop(_) => 0x17
    case LPopRange(_, _, _) => 0x18
    case LPopCount(_, _) => 0x19
    case LLen(_) => 0x20
    case LFlush(_) => 0x21
  }

  /** What comes after the key. */
  function Fields(c: Command): bytes
    requires !HasFrame(c)
  {
    match c
    case LPush(_, v) => Blob(v)
    case LPushRange(_, vs) => Blobs(vs)
    case LPopRange(_, start, end) => ToLe(start, 4) + ToLe(end, 4)
    case LPopCount(_, n) => ToLe(n, 4)
    case _ => []
  }

  function ListBody(db: bytes, c: Command): bytes
    requires !HasFrame(c)
  {
    Str(db) + Str(c.key) + Fields(c)
  }

  function ListFrame(db: bytes, c: Command): bytes
    requires !HasFrame(c)
  {
    [ServerTag(c)] + ListBody(db, c)
  }

  /** The key within a 16-bit length, payloads and numbers within 32 bits. */
  predicate Takeable(c: Command)
    requires !HasFrame(c)
  {
    FitsU16(c.key) &&
    match c
    case LPush(_, v) => FitsU32(v)
    case LPushRange(_, vs) => BlobsFit(vs)
    case LPopRange(_, start, end) => start < 0x1_0000_0000 && end < 0x1_0000_0000
    case LPopCount(_, n) => n < 0x1_0000_0000
    case _ => true
  }

  /** Some database name makes the layout of `c` the beginning of the frame. */
  ghost predicate Carries(frame: bytes, c: Command)
    requires !HasFrame(c)
  {
    exists db: text :: FitsU16(db) && ListFrame(db, c) <= frame
  }

  lemma FieldsBack(db: text, c: Command, tail: bytes)
    requires !HasFrame(c) && Takeable(c) && FitsU16(db)
    ensures ParseList(ServerTag(c), ListBody(db, c) + tail) == Ok(c)
  {
    hide ReadTwo, Str, Utf8, ToLe, ReadU32, Blob, Blobs, ReadBytes, ReadBlobs, BlobsFit;
    TwoBack(db, c.key, Fields(c) + tail);
    assert ListBody(db, c) + tail == Str(db) + Str(c.key) + (Fields(c) + tail);
    match c
    case LPush(_, v) => BlobBack(v, tail);
    case LPushRange(_, vs) => BlobsBack(vs, tail);
    case LPopRange(_, start, end) =>
      assert Fields(c) + tail == ToLe(start, 4) + (ToLe(end, 4) + tail);
      U32Back(start, ToLe(end, 4) + tail);
      U32Back(end, tail);
    case LPopCount(_, n) => U32Back(n, tail);
    case _ =>
  }

  /** The fields that are read are just those behind the two names. */
  lemma FieldsExact(tag: byte, k: (text, text), t: bytes, s: bytes)
    requires ReadTwo(s) == Ok((k, t)) && FitsU16(k.1) && (0x15 <= tag <= 0x19 || 0x20 <= tag <= 0x21)
    ensures ParseList(tag, s).Ok? ==>
      var c := ParseList(tag, s).value;
      !HasFrame(c) && ServerTag(c) == tag && c.key == k.1 && Takeable(c) && Fields(c) <= t
  {
    hide ReadTwo, Utf8, ToLe, ReadU32, Blob, Blobs, ReadBytes, ReadBlobs, BlobsFit;
    match tag
    case 0x15 => BytesExact(t);
    case 0x16 => BlobsExact(t);
    case 0x18 =>
      U32Exact(t);
      if ParseList(tag, s).Ok? {
        var (a, u) := ReadU32(t).value;
        U32Exact(u);
        var (b, v) := ReadU32(u).value;
        assert t == ToLe(a, 4) + ToLe(b, 4) + v;
      }
    case 0x19 => U32Exact(t);
    case _ =>
  }

  lemma ListBodyExact(tag: byte, s: bytes) returns (db: text)
    requires ParseList(tag, s).Ok? && (0x15 <= tag <= 0x19 || 0x20 <= tag <= 0x21)
    ensures var c := ParseList(tag, s).value;
            !HasFrame(c) && Takeable(c) && ServerTag(c) == tag && FitsU16(db) && ListBody(db, c) <= s
  {
    hide ReadTwo, Utf8, Str, Fields, Takeable, ServerTag, ReadU32, ReadBytes, ReadBlobs;
    TwoExact(s);
    var (k, t) := ReadTwo(s).value;
    db := k.0;
    FieldsExact(tag, k, t, s);
    hide ParseList, HasFrame;
    PrefixBehind(Str(k.0) + Str(k.1), Fields(ParseList(tag, s).value), t);
  }

  lemma PrefixBehind(a: bytes, b: bytes, t: bytes)
    requires b <= t
    ensures a + b <= a + t
  {
    assert a + t == a + b + t[|b|..];
  }

  /** The server reads a frame as the list command `c` if and only if its tag is that of `c` and a database name, the
      key of `c` and the fields of `c` follow, each within its bounds, whatever may come after. */
  lemma ListIff(frame: bytes, c: Command)
    requires !HasFrame(c)
    ensures Parse(frame) == Ok(c) <==> Takeable(c) && Carries(frame, c)
  {
    if Takeable(c) && Carries(frame, c) {
      var db: text :| FitsU16(db) && ListFrame(db, c) <= frame;
      CarriedParses(frame, db, c);
    }
    if Parse(frame) == Ok(c) {
      ParsedIsCarried(frame, c);
    }
  }

  lemma CarriedParses(frame: bytes, db: text, c: Command)
    requires !HasFrame(c) && Takeable(c) && FitsU16(db) && ListFrame(db, c) <= frame
    ensures Parse(frame) == Ok(c)
  {
    hide ParseList, ListBody, Takeable;
    var tail := frame[|ListFrame(db, c)|..];
    assert frame == ListFrame(db, c) + tail == [ServerTag(c)] + (ListBody(db, c) + tail);
    assert frame[1..] == ListBody(db, c) + tail;
    FieldsBack(db, c, tail);
  }

  lemma ParsedIsCarried(frame: bytes, c: Command)
    requires !HasFrame(c) && Parse(frame) == Ok(c)
    ensures Takeable(c) && Carries(frame, c)
  {
    var tag, s := frame[0], frame[1..];
    OnlyListTags(tag, s);
    var db := ListBodyExact(tag, s);
    hide ParseList, ParseBody, ListBody, Takeable;
    PrefixBehind([tag], ListBody(db, c), s);
    assert frame == [tag] + s;
    assert ListFrame(db, c) <= frame;
  }

  lemma OnlyListTags(tag: byte, s: bytes)
    requires ParseBody(tag, s).Ok? && !HasFrame(ParseBody(tag, s).value)
    ensures 0x15 <= tag <= 0x19 || 0x20 <= tag <= 0x21
    ensures ParseBody(tag, s) == ParseList(tag, s)
  {
    hide ReadStr, ReadNamed, ReadTwo, ReadPair, ReadPairs, ReadBlobs, ReadU64;
  }

  lemma ListExactly(frame: bytes)
    ensures forall c :: !HasFrame(c) ==> (Parse(frame) == Ok(c) <==> Takeable(c) && Carries(frame, c))
  {
    hide Parse, HasFrame, Takeable, Carries;
    forall c | !HasFrame(c) ensures Parse(frame) == Ok(c) <==> Takeable(c) && Carries(frame, c) {
      ListIff(frame, c);
    }
  }

  /** The tag alone tells which kind of command a frame is read as. */
  lemma TagTells(frame: bytes)
    requires Parse(frame).Ok?
    ensures var c, tag := Parse(frame).value, frame[0];
            && (tag == 0x01 <==> c.CreateGroup?) && (tag == 0x02 <==> c.DropGroup?) && (tag == 0x03 <==> c.Add?)
            && (tag == 0x04 <==> c.AddRange?) && (tag == 0x05 <==> c.Read?) && (tag == 0x06 <==> c.ReadRange?)
            && (tag == 0x07 <==> c.Remove?) && (tag == 0x08 <==> c.ListGroups?) && (tag == 0x09 <==> c.GroupStats?)
            && (tag == 0x10 <==> c.SetKey?) && (tag == 0x11 <==> c.GetKey?) && (tag == 0x12 <==> c.DelKey?)
            && (tag == 0x13 <==> c.Keys?) && (tag == 0x14 <==> c.Flush?) && (tag == 0x15 <==> c.LPush?)
            && (tag == 0x16 <==> c.LPushRange?) && (tag == 0x17 <==> c.LPop?) && (tag == 0x18 <==> c.LPopRange?)
            && (tag == 0x19 <==> c.LPopCount?) && (tag == 0x20 <==> c.LLen?) && (tag == 0x21 <==> c.LFlush?)
            && (tag == 0x22 <==> c.HaRegisterFollower?) && (tag == 0x23 <==> c.HaHeartBeat?) && (tag == 0x24 <==> c.HaSync?)
  {
    hide ReadStr, ReadNamed, ReadTwo, ReadPair, ReadPairs, ReadBlobs, ReadU32, ReadU64, ReadBytes;
  }

  // ---- the frames byte by byte ----

  lemma TwoByteNumber(v: nat)
    requires v < 0x1_0000
    ensures ToLe(v, 2) == [v % 256, v / 256]
  {
    assert ToLe(v / 256, 1) == [v / 256] + ToLe(v / 256 / 256, 0);
  }

  lemma FourByteNumber(v: nat)
    requires v < 0x1_0000
    ensures ToLe(v, 4) == [v % 256, v / 256, 0, 0]
  {
    assert ToLe(v / 256, 3) == [v / 256] + ToLe(v / 256 / 256, 2);
    TwoByteNumber(0);
  }

  lemma EightByteNumber(v: nat)
    requires v < 0x1_0000
    ensures ToLe(v, 8) == [v % 256, v / 256, 0, 0, 0, 0, 0, 0]
  {
    assert ToLe(v / 256, 7) == [v / 256] + ToLe(v / 256 / 256, 6);
    assert ToLe(0, 6) == [0] + ([0] + ToLe(0, 4));
    FourByteNumber(0);
  }

  /** Byte by byte: numbers go least significant byte first, text behind two bytes of length, payloads behind four. */
  lemma FieldBytes(s: bytes)
    requires |s| < 256
    ensures Str(s) == [|s|, 0] + s
    ensures Blob(s) == [|s|, 0, 0, 0] + s
  {
    TwoByteNumber(|s|);
    FourByteNumber(|s|);
    hide ToLe;
  }

  /** The lifetime of a value stands in front of it. */
  lemma SetBytes(d: text, k: text, v: bytes)
    requires |d| < 256 && |k| < 256 && |v| < 256
    ensures FrameOf(SetKey(d, k, v, 0x0102)) ==
              [0x10] + (([|d|, 0] + d) + ([|k|, 0] + k) + ([2, 1, 0, 0, 0, 0, 0, 0] + ([|v|, 0, 0, 0] + v)))
  {
    FieldBytes(d);
    FieldBytes(k);
    FieldBytes(v);
    EightByteNumber(0x0102);
    hide ToLe, Utf8, Str, Blob;
  }

  lemma PopRangeBytes(d: text, k: text)
    requires |d| < 256 && |k| < 256
    ensures ListFrame(d, LPopRange(k, 3, 0x0102)) ==
              [0x18] + (([|d|, 0] + d) + ([|k|, 0] + k) + ([3, 0, 0, 0] + [2, 1, 0, 0]))
  {
    FieldBytes(d);
    FieldBytes(k);
    FourByteNumber(3);
    FourByteNumber(0x0102);
    hide ToLe, Utf8, Str;
  }

  lemma AddBytes(g: text, p: bytes)
    requires |g| < 256 && |p| < 256
    ensures FrameOf(Add(g, 0x0102, p)) ==
              [0x03] + (([|g|, 0] + g) + ([2, 1, 0, 0, 0, 0, 0, 0] + ([|p|, 0, 0, 0] + p)))
  {
    FieldBytes(g);
    FieldBytes(p);
    EightByteNumber(0x0102);
    hide ToLe, Utf8, Str, Blob;
  }
}
