/**
 The WRITE_DATA, HEARTBEAT and ACKNACK frames of the reliable stream: an 8-octet
 header (session, stream, sequence, submessage id, flags, body length) and a body.
 */
module XrceFrames {
  import opened Common

  const SM_WRITE_DATA: Byte := 0x07
  const SM_DATA: Byte := 0x09
  const SM_ACKNACK: Byte := 0x0A
  const SM_HEARTBEAT: Byte := 0x0B
  const FLAG_E_LE: Byte := 0x01
  const BASE_SIZE := 4

  datatype HeartbeatBody = HeartbeatBody(first: U16, last: U16, streamId: Byte)

  datatype AckNackBody = AckNackBody(firstUnacked: U16, nackLo: Byte, nackHi: Byte, streamId: Byte)

  /** How ACKNACK_Payload, which has no extensibility annotation, is written. */
  datatype UnannotatedTypes = Appendable | Final

  /** A sample that fits the 16-bit submessage length together with its BaseObjectRequest. */
  predicate Sendable(sample: Octets) {
    |sample| + BASE_SIZE <= 0xFFFF
  }

  /** A WRITE_DATA frame; the empty frame when the body length would not fit 16 bits. */
  function WriteFrame(session: Byte, stream: Byte, seqNo: U16, objectId: U16, sample: Octets): Octets {
    if !Sendable(sample) then []
    else
      var n: U16 := |sample| + BASE_SIZE;
      [session, stream, Lo(seqNo), Hi(seqNo), SM_WRITE_DATA, FLAG_E_LE, Lo(n), Hi(n),
       Hi(seqNo), Lo(seqNo), Hi(objectId), Lo(objectId)] + sample
  }

  function ReadFrame(frame: Octets): Option<(U16, Octets)> {
    if |frame| < 8 + BASE_SIZE || frame[4] != SM_WRITE_DATA then None
    else
      var smLen := Word16(frame[6], frame[7]);
      if smLen < BASE_SIZE || 8 + smLen as int > |frame| then None
      else Some((Word16(frame[2], frame[3]), frame[8 + BASE_SIZE..8 + smLen as int]))
  }

  /** A frame as a reader of the plain stream takes it: the BaseObjectRequest and the sample. */
  datatype BasedSample = BasedSample(requestId: U16, objectId: U16, sample: Octets)

  /** Data in either direction, with the base in big-endian order. */
  function ReadFrameWithBase(frame: Octets): Option<BasedSample> {
    if |frame| < 8 + BASE_SIZE || (frame[4] != SM_DATA && frame[4] != SM_WRITE_DATA) then None
    else
      var smLen := Word16(frame[6], frame[7]);
      if smLen < BASE_SIZE || 8 + smLen as int > |frame| then None
      else Some(BasedSample(Word16(frame[9], frame[8]), Word16(frame[11], frame[10]),
                            frame[8 + BASE_SIZE..8 + smLen as int]))
  }

  /** The eight octets every frame begins with, and the body they announce. */
  datatype Head = Head(session: Byte, stream: Byte, seqNo: U16, submessage: Byte, flags: Byte, length: U16)

  function HeadOf(frame: Octets): Head
    requires |frame| >= 8
  {
    Head(frame[0], frame[1], 0x100 * (frame[3] as int) + frame[2], frame[4], frame[5],
         0x100 * (frame[7] as int) + frame[6])
  }

  function HeartbeatFrame(session: Byte, streamHdr: Byte, msgSeq: U16, hb: HeartbeatBody): Octets {
    [session, streamHdr, Lo(msgSeq), Hi(msgSeq), SM_HEARTBEAT, FLAG_E_LE, 5, 0,
     Lo(hb.first), Hi(hb.first), Lo(hb.last), Hi(hb.last), hb.streamId]
  }

  function ParseHeartbeat(frame: Octets): Option<HeartbeatBody> {
    if |frame| < 13 || frame[4] != SM_HEARTBEAT then None
    else Some(HeartbeatBody(Word16(frame[8], frame[9]), Word16(frame[10], frame[11]), frame[12]))
  }

  function AckNackFrame(session: Byte, streamHdr: Byte, msgSeq: U16, ack: AckNackBody,
                        mode: UnannotatedTypes): Octets
  {
    var head: Octets := [session, streamHdr, Lo(msgSeq), Hi(msgSeq), SM_ACKNACK, FLAG_E_LE];
    var length: Octets := if mode.Final? then [5, 0] else [9, 0, 5, 0, 0, 0];
    head + length + [Lo(ack.firstUnacked), Hi(ack.firstUnacked), ack.nackLo, ack.nackHi, ack.streamId]
  }

  function ParseAckNack(frame: Octets): Option<AckNackBody> {
    if |frame| < 13 || frame[4] != SM_ACKNACK then None
    else
      var extended := Word16(frame[6], frame[7]) >= 9;
      if extended && |frame| < 17 then None
      else
        var off := if extended then 12 else 8;
        Some(AckNackBody(Word16(frame[off], frame[off + 1]), frame[off + 2], frame[off + 3], frame[off + 4]))
  }

  /** Reading inverts writing exactly for the samples a frame can carry, whatever trails the frame;
      of a longer sample nothing is read back. */
  lemma ReadWriteFrame(session: Byte, stream: Byte, seqNo: U16, objectId: U16, sample: Octets, rest: Octets)
    ensures Sendable(sample) ==>
              ReadFrame(WriteFrame(session, stream, seqNo, objectId, sample) + rest) == Some((seqNo, sample))
    ensures ReadFrame(WriteFrame(session, stream, seqNo, objectId, sample)) ==
            if Sendable(sample) then Some((seqNo, sample)) else None
    ensures ParseAckNack(WriteFrame(session, stream, seqNo, objectId, sample)) == None
  {
    if Sendable(sample) {
      var frame := WriteFrame(session, stream, seqNo, objectId, sample);
      assert (frame + rest)[8 + BASE_SIZE..8 + BASE_SIZE + |sample|] == sample;
      assert frame[8 + BASE_SIZE..8 + BASE_SIZE + |sample|] == sample;
    }
  }

  /** The base of a data frame is the sequence number as request id and the object id, whatever trails the frame, in
      either direction of the data. */
  lemma BaseReadsBack(session: Byte, stream: Byte, seqNo: U16, objectId: U16, sample: Octets, rest: Octets)
    requires Sendable(sample)
    ensures var frame := WriteFrame(session, stream, seqNo, objectId, sample) + rest;
            && ReadFrameWithBase(frame) == Some(BasedSample(seqNo, objectId, sample))
            && ReadFrameWithBase(frame[4 := 0x09]) == Some(BasedSample(seqNo, objectId, sample))
            && ReadFrame(frame[4 := 0x09]) == None
  {
    var frame := WriteFrame(session, stream, seqNo, objectId, sample) + rest;
    assert frame[12..12 + |sample|] == sample && frame[4 := 0x09][12..12 + |sample|] == sample;
  }

  /** Nothing shorter than header and base is data, nor anything of another kind or with a body that is cut off. */
  lemma BaseNeedsItsFrame(frame: Octets)
    ensures ReadFrameWithBase(frame).Some? <==>
              && |frame| >= 12 && frame[4] in {0x07, 0x09}
              && 4 <= HeadOf(frame).length as int <= |frame| - 8
    ensures ReadFrame(frame).Some? <==> ReadFrameWithBase(frame).Some? && frame[4] == 0x07
  {
  }

  /** What the head of each kind of frame says: the session, stream and number it was written under, the submessage, the
      flag of little-endian order, and a length that is the length of the body. */
  lemma HeadsSayWhatFollows(session: Byte, stream: Byte, seqNo: U16, objectId: U16, sample: Octets, hb: HeartbeatBody,
                            ack: AckNackBody, mode: UnannotatedTypes)
    ensures Sendable(sample) <==> |sample| <= 65531
    ensures Sendable(sample) ==>
              var frame := WriteFrame(session, stream, seqNo, objectId, sample);
              |frame| >= 8 && HeadOf(frame) == Head(session, stream, seqNo, 0x07, 0x01, |frame| - 8)
    ensures var frame := HeartbeatFrame(session, stream, seqNo, hb);
            |frame| == 13 && HeadOf(frame) == Head(session, stream, seqNo, 0x0B, 0x01, 5)
    ensures var frame := AckNackFrame(session, stream, seqNo, ack, mode);
            && |frame| == (if mode.Final? then 13 else 17)
            && HeadOf(frame) == Head(session, stream, seqNo, 0x0A, 0x01, |frame| - 8)
            && (mode.Appendable? ==> frame[8..12] == [5, 0, 0, 0])
  {
    var frame := AckNackFrame(session, stream, seqNo, ack, mode);
    assert frame[6] == if mode.Final? then 5 else 9;
    assert frame[7] == 0;
  }

  /** What follows the head of each kind of frame, octet by octet. */
  lemma BodiesOctetByOctet(session: Byte, stream: Byte, seqNo: U16, objectId: U16, sample: Octets, hb: HeartbeatBody,
                           ack: AckNackBody, mode: UnannotatedTypes)
    ensures Sendable(sample) ==>
              WriteFrame(session, stream, seqNo, objectId, sample)[8..] ==
              [seqNo / 256, seqNo % 256, objectId / 256, objectId % 256] + sample
    ensures HeartbeatFrame(session, stream, seqNo, hb)[8..] ==
            [hb.first % 256, hb.first / 256, hb.last % 256, hb.last / 256, hb.streamId]
    ensures var frame := AckNackFrame(session, stream, seqNo, ack, mode);
            frame[|frame| - 5..] ==
            [ack.firstUnacked % 256, ack.firstUnacked / 256, ack.nackLo, ack.nackHi, ack.streamId]
  {
    var frame := AckNackFrame(session, stream, seqNo, ack, mode);
    assert |frame| == if mode.Final? then 13 else 17;
  }

  /** Either form of an ACKNACK is read back, in either setting of the reader, and is no data frame. */
  lemma ParseAckNackInverse(session: Byte, streamHdr: Byte, msgSeq: U16, ack: AckNackBody, mode: UnannotatedTypes)
    ensures ParseAckNack(AckNackFrame(session, streamHdr, msgSeq, ack, mode)) == Some(ack)
    ensures ReadFrame(AckNackFrame(session, streamHdr, msgSeq, ack, mode)) == None
    ensures ParseHeartbeat(AckNackFrame(session, streamHdr, msgSeq, ack, mode)) == None
  {
    var frame := AckNackFrame(session, streamHdr, msgSeq, ack, mode);
    assert frame[4] == SM_ACKNACK;
    assert frame[6] == if mode.Final? then 5 else 9;
    assert frame[7] == 0;
  }

  lemma ParseHeartbeatInverse(session: Byte, streamHdr: Byte, msgSeq: U16, hb: HeartbeatBody)
    ensures ParseHeartbeat(HeartbeatFrame(session, streamHdr, msgSeq, hb)) == Some(hb)
  {
  }
}
