/**
 * GroupFunctionHandlerForPGN128006::HandleRequest: acknowledge the field
 * indices a request names, one code per pair, against the supported indices
 * 2..9. After the first unsupported index every further pair is answered
 * "temporarily unable to comply"; a request addressed to this device alone
 * stops at that index, a broadcast one is answered to the end.
 */
module RequestHandler {
  import opened N2k
  import opened FieldCodec

  /**
   * The request handler reads one byte per pair and nothing else, so the
   * index of pair `i` is the byte at position `i` of the pair bytes, as long
   * as every earlier index was supported (0xFF past the end of the payload).
   */
  predicate AllSupportedBefore(data: seq<Byte>, i: nat)
  {
    forall j :: 0 <= j < i ==> IsSupportedField(ByteAt(data, j))
  }

  /** One more pair is all supported exactly when the earlier ones are and its own index is. */
  lemma AllSupportedStep(data: seq<Byte>, i: nat)
    ensures AllSupportedBefore(data, i + 1) <==> AllSupportedBefore(data, i) && IsSupportedField(ByteAt(data, i))
  {
  }

  /** The code pair `i` deserves: refused once an earlier index was unsupported, else judged on its own index. */
  function ExpectedCode(data: seq<Byte>, i: nat): ParameterErrorCode
  {
    if !AllSupportedBefore(data, i) then TemporarilyUnableToComply
    else if IsSupportedField(ByteAt(data, i)) then Acknowledge
    else InvalidField
  }

  /** The position of the first unsupported index among the first `n`, or `n` when there is none. */
  function FirstUnsupported(data: seq<Byte>, n: nat): (k: nat)
    ensures k <= n
    ensures AllSupportedBefore(data, k)
    ensures k < n ==> !IsSupportedField(ByteAt(data, k))
  {
    if n == 0 then 0
    else
      var k := FirstUnsupported(data, n - 1);
      if k < n - 1 then k
      else if IsSupportedField(ByteAt(data, n - 1)) then n
      else n - 1
  }

  /**
   * The codes a request for `n` pairs is acknowledged with: every pair when
   * broadcast; for a unicast request, the pairs up to and including the
   * first unsupported index.
   */
  function RequestCodes(data: seq<Byte>, n: nat, isBroadcast: bool): seq<ParameterErrorCode>
  {
    var first := FirstUnsupported(data, n);
    var len := if isBroadcast || first == n then n else first + 1;
    seq(len, i requires 0 <= i < len => ExpectedCode(data, i))
  }

  /**
   * HandleRequest on the pair bytes `data` of a request from `source`, with
   * `pec` the transmission-interval verdict and `isBroadcast` whether the
   * request's destination is the broadcast address. Returns the
   * acknowledgment the handler builds and whether it is sent: the handler
   * never passes it to SendMsg.
   */
  method HandleRequest(data: seq<Byte>, source: Byte, pec: TransmissionErrorCode, numberOfPairs: Byte, isBroadcast: bool)
    returns (ack: Ack, sent: bool)
    // The acknowledgment is built but never transmitted.
    ensures !sent
    ensures ack.destination == source && ack.pgn == ThrusterControlStatusPgn && ack.pgnError == PgnAcknowledge
    ensures ack.transmissionError == pec && ack.declaredPairs == numberOfPairs
    ensures ack.codes == RequestCodes(data, numberOfPairs, isBroadcast)
    // Never more codes than pairs; every pair when broadcast.
    ensures |ack.codes| <= numberOfPairs
    ensures isBroadcast ==> |ack.codes| == numberOfPairs
    // Code i is decided by index i and the indices before it.
    ensures forall i :: 0 <= i < |ack.codes| ==> ack.codes[i] == ExpectedCode(data, i)
    // A unicast request stops short only right after an invalid index, and never defers a pair.
    ensures !isBroadcast && |ack.codes| < numberOfPairs ==> 0 < |ack.codes| && ack.codes[|ack.codes| - 1] == InvalidField
    ensures !isBroadcast ==> TemporarilyUnableToComply !in ack.codes
  {
    var matchFilter := true;
    ack := StartAcknowledge(source, pec, numberOfPairs);
    ack := ack.(destination := source);  // the explicit readdressing to the requester

    if numberOfPairs > 0 {
      var i := 0;
      var index: nat := 0;
      // Corrected: the code a supported index keeps is Acknowledge.
      var fieldErrorCode := Acknowledge;
      var foundInvalidField := false;

      while i < numberOfPairs && (matchFilter || isBroadcast)
        invariant 0 <= i <= numberOfPairs
        invariant matchFilter == !foundInvalidField
        invariant foundInvalidField <==> !AllSupportedBefore(data, i)
        invariant !foundInvalidField ==> index == i && fieldErrorCode == Acknowledge
        invariant !isBroadcast && 0 < i ==> AllSupportedBefore(data, i - 1)
        invariant ack == StartAcknowledge(source, pec, numberOfPairs).(codes := ack.codes)
        invariant |ack.codes| == i
        invariant forall j :: 0 <= j < i ==> ack.codes[j] == ExpectedCode(data, j)
      {
        AllSupportedStep(data, i);
        if !foundInvalidField {
          var read := GetByte(data, index);
          index := read.1;
          if !IsSupportedField(read.0) {
            fieldErrorCode := InvalidField;
            matchFilter := false;
            foundInvalidField := true;
          }
        } else {
          fieldErrorCode := TemporarilyUnableToComply;
        }
        ack := AddAcknowledgeParameter(ack, fieldErrorCode);
        i := i + 1;
      }
      CodesAreRequestCodes(data, numberOfPairs, isBroadcast, ack.codes);
    }
    sent := false;
  }

  /** The loop's result, stated as the reference codes. */
  lemma CodesAreRequestCodes(data: seq<Byte>, n: nat, isBroadcast: bool, codes: seq<ParameterErrorCode>)
    requires |codes| <= n
    requires forall j :: 0 <= j < |codes| ==> codes[j] == ExpectedCode(data, j)
    requires isBroadcast || |codes| == 0 || AllSupportedBefore(data, |codes| - 1)
    requires |codes| == n || (!isBroadcast && !AllSupportedBefore(data, |codes|))
    ensures codes == RequestCodes(data, n, isBroadcast)
  {
  }

  /**
   * Sticky failure: once a pair is acknowledged as an invalid field, every
   * later acknowledged pair is "temporarily unable to comply", whatever its
   * own index.
   */
  lemma StickyFailure(data: seq<Byte>, n: nat, isBroadcast: bool, i: nat, j: nat)
    requires i < j < |RequestCodes(data, n, isBroadcast)|
    requires RequestCodes(data, n, isBroadcast)[i] == InvalidField
    ensures RequestCodes(data, n, isBroadcast)[j] == TemporarilyUnableToComply
  {
  }

  /**
   * With the first unsupported index at position k, a unicast request is
   * acknowledged for pairs 0..k only, a broadcast one for all n pairs, and
   * the two agree where both have a code.
   */
  lemma UnicastStopsAtFirstInvalid(data: seq<Byte>, n: nat, k: nat)
    requires k < n && AllSupportedBefore(data, k) && !IsSupportedField(ByteAt(data, k))
    ensures |RequestCodes(data, n, false)| == k + 1
    ensures |RequestCodes(data, n, true)| == n
    ensures RequestCodes(data, n, false) == RequestCodes(data, n, true)[..k + 1]
    ensures RequestCodes(data, n, false)[k] == InvalidField
  {
  }

  /** A request naming only supported indices is acknowledged pair by pair, unicast or broadcast. */
  lemma AllSupportedAllAcknowledged(data: seq<Byte>, n: nat, isBroadcast: bool)
    requires AllSupportedBefore(data, n)
    ensures RequestCodes(data, n, isBroadcast) == seq(n, _ => Acknowledge)
  {
  }

  /**
   * Indices 2, 99, 3: index 3 is supported on its own but follows the
   * invalid 99, so it is deferred when broadcast and never reached when unicast.
   */
  lemma DeferredAfterInvalid()
    ensures RequestCodes([2, 99, 3], 3, true) == [Acknowledge, InvalidField, TemporarilyUnableToComply]
    ensures RequestCodes([2, 99, 3], 3, false) == [Acknowledge, InvalidField]
  {
  }

  /**
   * The handler reads one byte per pair and never skips a pair's value, so
   * the value of the first pair is judged as the second pair's index: the
   * pairs (2, 100) and (3, 0), broadcast, are answered Acknowledge then
   * InvalidField for the value 100.
   */
  lemma ValueByteReadAsIndex()
    ensures RequestCodes([2, 100, 3, 0], 2, true) == [Acknowledge, InvalidField]
  {
  }

  /**
   * The code HandleRequest appends for pair `i` as the source has it:
   * FieldErrorCode is assigned only for an unsupported index and after one,
   * so a supported index before any unsupported one is acknowledged with
   * whatever the uninitialised variable holds, `leftover`.
   */
  function AsWrittenCode(data: seq<Byte>, i: nat, leftover: ParameterErrorCode): ParameterErrorCode
  {
    if !AllSupportedBefore(data, i) then TemporarilyUnableToComply
    else if IsSupportedField(ByteAt(data, i)) then leftover
    else InvalidField
  }

  /**
   * The as-written code agrees with the intended one except on a supported
   * index with no unsupported one before it, where it is the leftover value
   * instead of Acknowledge.
   */
  lemma AsWrittenDiffersOnSupportedIndices(data: seq<Byte>, i: nat, leftover: ParameterErrorCode)
    ensures AsWrittenCode(data, i, leftover) == ExpectedCode(data, i)
            <==> leftover == Acknowledge || !AllSupportedBefore(data, i + 1)
  {
  }

  /** A request for the single supported index 2 is answered with the leftover code rather than Acknowledge. */
  lemma UninitialisedCodeOnSupportedIndex(leftover: ParameterErrorCode)
    requires leftover != Acknowledge
    ensures ExpectedCode([2], 0) == Acknowledge
    ensures AsWrittenCode([2], 0, leftover) == leftover
  {
  }
}
