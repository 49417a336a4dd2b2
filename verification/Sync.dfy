/** The payload of a sync: entries in base64 inside an `HA_SYNC` frame, from the leader's loop to the follower's. */
module Sync {
  import opened Bytes
  import opened Wire
  import opened ProtoSpec
  import opened Base64
  import Proto
  import C = Codec

  function Encoded(items: seq<bytes>): seq<bytes> {
    if items == [] then [] else [Encode(items[0])] + Encoded(items[1..])
  }

  function Decoded(items: seq<bytes>): seq<bytes> {
    if items == [] then [] else [Decode(items[0])] + Decoded(items[1..])
  }

  lemma {:induction false} EncodedItems(items: seq<bytes>)
    ensures |Encoded(items)| == |items| && forall i :: 0 <= i < |items| ==> Encoded(items)[i] == Encode(items[i])
    decreases |items|
  {
    hide Encode;
    if items != [] {
      EncodedItems(items[1..]);
    }
  }

  lemma {:induction false} DecodedItems(items: seq<bytes>)
    ensures |Decoded(items)| == |items| && forall i :: 0 <= i < |items| ==> Decoded(items)[i] == Decode(items[i])
    decreases |items|
  {
    hide Decode;
    if items != [] {
      DecodedItems(items[1..]);
    }
  }

  lemma EncodedOne(items: seq<bytes>, i: nat)
    requires i < |items|
    ensures Encoded(items[..i + 1]) == Encoded(items[..i]) + [Encode(items[i])]
  {
    hide Encoded, Encode;
    EncodedItems(items[..i + 1]);
    EncodedItems(items[..i]);
  }

  lemma DecodedOne(items: seq<bytes>, i: nat)
    requires i < |items|
    ensures Decoded(items[..i + 1]) == Decoded(items[..i]) + [Decode(items[i])]
  {
    hide Decoded, Decode;
    DecodedItems(items[..i + 1]);
    DecodedItems(items[..i]);
  }

  /** The frame `sync_follower` sends. */
  method SyncFrame(items: seq<bytes>) returns (frame: bytes)
    ensures frame == FrameOf(HaSync(Encoded(items)))
  {
    hide Encode, Decode, ToLe, Many, Encoded;
    var encoded: seq<bytes> := [];
    EncodedItems(items[..0]);
    for i := 0 to |items|
      invariant encoded == Encoded(items[..i])
    {
      var text := ToBase64(items[i]);
      EncodedOne(items, i);
      encoded := encoded + [text];
    }
    assert items[..|items|] == items;
    frame := [0x24];
    frame := frame + ToLe(|encoded|, 4);
    ghost var head := frame;
    NoneWritten(encoded[..0], Blob);
    for i := 0 to |encoded|
      invariant frame == head + Many(encoded[..i], Blob)
    {
      var b := encoded[i];
      frame := frame + ToLe(|b|, 4);
      frame := frame + b;
      OneMore(encoded, i, Blob);
    }
    assert encoded[..|encoded|] == encoded;
  }

  /** The follower's handling of a frame: `None` when it is not a sync, or an item is not text (a panic). */
  function Received(frame: bytes): Option<seq<bytes>> {
    var c := Parse(frame);
    if c.Ok? && c.value.HaSync? && (forall i :: 0 <= i < |c.value.items| ==> Utf8(c.value.items[i]))
    then Some(Decoded(c.value.items)) else None
  }

  method HandleSync(frame: bytes) returns (r: Option<seq<bytes>>)
    ensures r == Received(frame)
  {
    hide Parse, Utf8, Decode, Decoded, HasFrame, Sendable, FrameOf;
    var c := Proto.ParseCommand(frame);
    if c.Err? || !c.value.HaSync? {
      return None;
    }
    var items := c.value.items;
    var out: seq<bytes> := [];
    DecodedItems(items[..0]);
    for i := 0 to |items|
      invariant out == Decoded(items[..i]) && forall k :: 0 <= k < i ==> Utf8(items[k])
    {
      if !Utf8(items[i]) {
        return None;
      }
      var x := FromBase64(items[i]);
      DecodedOne(items, i);
      out := out + [x];
    }
    assert items[..|items|] == items;
    return Some(out);
  }

  /** The count and the length of each encoded item fit their 32-bit fields. */
  predicate Syncable(items: seq<bytes>) {
    |items| < 0x1_0000_0000 && forall i :: 0 <= i < |items| ==> 4 * ((|items[i]| + 2) / 3) < 0x1_0000_0000
  }

  /** End to end: base64 each item, build the frame, parse it, decode each item: the original list, in order. */
  lemma SyncRoundTrip(items: seq<bytes>)
    requires Syncable(items)
    ensures Received(FrameOf(HaSync(Encoded(items)))) == Some(items)
  {
    hide Encode, Decode, Encoded, Decoded, Parse, FrameOf, Utf8;
    var encoded := Encoded(items);
    EncodedItems(items);
    forall i | 0 <= i < |items| ensures FitsU32(encoded[i]) && Utf8(encoded[i]) && Decode(encoded[i]) == items[i] {
      EncodedLength(items[i]);
      EncodedAscii(items[i]);
      AsciiIsUtf8(encoded[i]);
      RoundTrip(items[i]);
    }
    RequestRoundTrip(HaSync(encoded));
    DecodedItems(encoded);
    assert Decoded(encoded) == items;
  }

  /** Sent with its length in front through the follower's decoder, a sync arrives whole if and only if its frame is
      at most 16 MiB; a larger one whose length the prefix can hold makes the follower give up the connection. */
  lemma SyncArrivesIff(items: seq<bytes>)
    requires Syncable(items)
    ensures var frame := FrameOf(HaSync(Encoded(items))); var p := C.Drain(C.Framed(frame));
            && (p == C.Progress([frame], [], false) <==> |frame| <= 16_777_216)
            && (|frame| <= 16_777_216 ==> Received(p.frames[0]) == Some(items))
            && (16_777_216 < |frame| < 0x1_0000_0000 ==> p.frames == [] && p.failed)
  {
    hide Encoded, Received, FrameOf, C.HeadOf, C.Drain;
    SyncRoundTrip(items);
    var frame := FrameOf(HaSync(Encoded(items)));
    C.DrainSmall(C.Framed(frame));
    if |frame| <= 16_777_216 {
      C.OneFrame(frame);
    } else {
      assert !C.Small([frame]) by {
        assert [frame][0] == frame;
      }
      if |frame| < 0x1_0000_0000 {
        C.TooLargeFails(frame);
      }
    }
  }
}
