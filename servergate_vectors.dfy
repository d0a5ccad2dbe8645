/**
 * The exchange of test/test_servergate.c, replayed on the model: the
 * chunks the test feeds to servergate_add and the packets its callback
 * receives after each call.  The lemmas hold for any id; the test uses
 * id 1 for calls 1 to 7 and id 2 for calls 8 and 9.
 */
module ServerGateVectors {
  import opened Common
  import opened ServerGate

  /** Call 1: a whole frame of five bytes. */
  lemma Call1(id: int)
    ensures FeedBytes(NewState(id), [0x00, 0x05, 11, 12, 13, 14, 15]) == (NewState(id), [[11, 12, 13, 14, 15]])
  {
    assert Frame([11, 12, 13, 14, 15]) == [0x00, 0x05, 11, 12, 13, 14, 15];
    FrameFeeds(id, [11, 12, 13, 14, 15]);
  }

  /** Call 2: a whole frame of four bytes, then the first header byte of the next one. */
  lemma Call2(id: int)
    ensures FeedBytes(NewState(id), [0x00, 0x04, 21, 22, 23, 24, 0x00]) ==
              (ConnectState(id, 0, 0, None, [0]), [[21, 22, 23, 24]])
  {
    var p: seq<byte> := [21, 22, 23, 24];
    assert Frame(p) + [0] == [0x00, 0x04, 21, 22, 23, 24, 0x00];
    var r := FeedBytes(NewState(id), [0]);
    assert r == (ConnectState(id, 0, 0, None, [0]), []) by {
      HeaderFeeds(NewState(id), [0]);
      assert NewState(id).header + [0] == [0];
    }
    assert FeedBytes(NewState(id), Frame(p) + [0]) == (r.0, [p] + r.1) by {
      FrameThen(id, p, [0]);
    }
    assert [p] + [] == [p];
  }

  /** Call 3: the rest of that header, its two-byte body, then a whole frame of three bytes. */
  lemma Call3(id: int)
    ensures FeedBytes(ConnectState(id, 0, 0, None, [0]), [0x02, 31, 32, 0x00, 0x03, 41, 42, 43]) ==
              (NewState(id), [[31, 32], [41, 42, 43]])
  {
    var s2 := ConnectState(id, 0, 0, None, [0]);
    var s3 := ConnectState(id, 0, 2, Some([]), [0, 2]);
    var b: seq<byte> := [31, 32];
    var p: seq<byte> := [41, 42, 43];
    assert Frame(p) == [0x00, 0x03, 41, 42, 43];
    assert [0x02, 31, 32, 0x00, 0x03, 41, 42, 43] == [2] + (b + Frame(p));
    assert FeedBytes(s2, [2]) == (s3, []) by {
      HeaderFeeds(s2, [2]);
      assert s2.header + [2] == [0, 2];
    }
    assert FeedBytes(s3, b) == (NewState(id), [b]) by {
      BodyFeeds(s3, b);
      assert [] + b == b;
    }
    assert FeedBytes(s3, b + Frame(p)) == (NewState(id), [b] + [p]) by {
      FrameFeeds(id, p);
      FeedAppend(s3, b, Frame(p));
    }
    assert FeedBytes(s2, [2] + (b + Frame(p))) == (NewState(id), [] + ([b] + [p])) by {
      FeedAppend(s2, [2], b + Frame(p));
    }
    assert [] + ([b] + [p]) == [b, p];
  }

  /** Call 4: two whole frames in one chunk. */
  lemma Call4(id: int)
    ensures FeedBytes(NewState(id), [0x00, 0x02, 51, 52, 0x00, 0x03, 61, 62, 63]) ==
              (NewState(id), [[51, 52], [61, 62, 63]])
  {
    var p: seq<byte> := [51, 52];
    var q: seq<byte> := [61, 62, 63];
    assert [0x00, 0x02, 51, 52, 0x00, 0x03, 61, 62, 63] == Frame(p) + Frame(q);
    FrameFeeds(id, q);
    FrameThen(id, p, Frame(q));
    assert [p] + [q] == [p, q];
  }

  /** Call 5: the header of a nine-byte packet and its first four bytes. */
  lemma Call5(id: int)
    ensures FeedBytes(NewState(id), [0x00, 0x09, 71, 72, 73, 74]) ==
              (ConnectState(id, 4, 9, Some([71, 72, 73, 74]), [0, 9]), [])
  {
    assert [0x00, 0x09, 71, 72, 73, 74] == [0, 9] + [71, 72, 73, 74];
    assert BE16(0, 9) == 9;
    PartialFrame(id, 0, 9, [71, 72, 73, 74]);
  }

  /** Call 6: the last five bytes of that packet complete it. */
  lemma Call6(id: int)
    ensures FeedBytes(ConnectState(id, 4, 9, Some([71, 72, 73, 74]), [0, 9]), [75, 76, 77, 78, 79]) ==
              (NewState(id), [[71, 72, 73, 74, 75, 76, 77, 78, 79]])
  {
    var st := ConnectState(id, 4, 9, Some([71, 72, 73, 74]), [0, 9]);
    BodyFeeds(st, [75, 76, 77, 78, 79]);
    assert [71, 72, 73, 74] + [75, 76, 77, 78, 79] == [71, 72, 73, 74, 75, 76, 77, 78, 79];
  }

  /** Call 7: the header of a 32-byte packet and six of its bytes, which stay pending. */
  lemma Call7(id: int)
    ensures FeedBytes(NewState(id), [0x00, 0x20, 81, 82, 83, 84, 85, 86]) ==
              (ConnectState(id, 6, 32, Some([81, 82, 83, 84, 85, 86]), [0, 32]), [])
  {
    assert [0x00, 0x20, 81, 82, 83, 84, 85, 86] == [0, 32] + [81, 82, 83, 84, 85, 86];
    assert BE16(0, 32) == 32;
    PartialFrame(id, 0, 32, [81, 82, 83, 84, 85, 86]);
  }

  /** Call 8: a second id gets the header of a six-byte packet and five of its bytes. */
  lemma Call8(id: int)
    ensures FeedBytes(NewState(id), [0x00, 0x06, 91, 92, 93, 94, 95]) ==
              (ConnectState(id, 5, 6, Some([91, 92, 93, 94, 95]), [0, 6]), [])
  {
    assert [0x00, 0x06, 91, 92, 93, 94, 95] == [0, 6] + [91, 92, 93, 94, 95];
    assert BE16(0, 6) == 6;
    PartialFrame(id, 0, 6, [91, 92, 93, 94, 95]);
  }

  /** Call 9: the last byte completes the packet of that second id. */
  lemma Call9(id: int)
    ensures FeedBytes(ConnectState(id, 5, 6, Some([91, 92, 93, 94, 95]), [0, 6]), [96]) ==
              (NewState(id), [[91, 92, 93, 94, 95, 96]])
  {
    var st := ConnectState(id, 5, 6, Some([91, 92, 93, 94, 95]), [0, 6]);
    BodyFeeds(st, [96]);
    assert [91, 92, 93, 94, 95] + [96] == [91, 92, 93, 94, 95, 96];
  }
}
