/**
 * GroupFunctionHandlerForPGN128006::HandleCommand: walk the declared number
 * of (field-index, value) pairs from the payload cursor, stage every value
 * that decodes into a ten-slot array, acknowledge each pair with one code,
 * send the acknowledgment, and hand the staged slots to the update callback
 * unless some value was out of range.
 */
module CommandHandler {
  import opened N2k
  import opened FieldCodec

  /** Slots in the staging array: one per field index 0..9. */
  const FieldCount: nat := 10

  /** One entry of the staging array (PGN128006_Field). */
  datatype Slot = Slot(dirty: bool, value: FieldValue)

  /** How every slot starts: not dirty, all-zero value. */
  const EmptySlot: Slot := Slot(false, Zero)

  /** One pair as the cursor meets it: the index byte read, what its value decoded to, and the cursor after it. */
  datatype Step = Step(field: Byte, outcome: Outcome, next: nat)

  /** The pair starting at cursor `index`: its index byte, then its value by that index's rule. */
  function DecodePair(data: seq<Byte>, index: nat): (s: Step)
    // A staged value goes to a slot of the array, the one named by the index byte.
    ensures s.outcome.Staged? ==> IsSupportedField(s.field) && FieldNumber(s.outcome.value) == s.field
    // An unknown index takes only its own byte; a known one also its value's width, when present.
    ensures index < |data| && !IsSupportedField(s.field) ==> s.next == index + 1
    ensures index + 1 + ValueWidth(s.field) <= |data| && IsSupportedField(s.field) ==> s.next == index + 1 + ValueWidth(s.field)
    // Past the end of the payload the index byte reads as 0xFF, an invalid field, and the cursor stays.
    ensures |data| <= index ==> s == Step(ByteNotAvailable, Rejected(InvalidField), index)
  {
    var (field, valueIndex) := GetByte(data, index);
    var (outcome, next) := DecodeValue(field, data, valueIndex);
    Step(field, outcome, next)
  }

  /** Where the cursor stands after the given pairs; the pairs start at 0. */
  function CursorAfter(t: seq<Step>): nat
  {
    if t == [] then 0 else t[|t| - 1].next
  }

  /** The first `n` pairs of the payload, each starting where the previous one ended. */
  function Trace(data: seq<Byte>, n: nat): (t: seq<Step>)
    ensures |t| == n
    ensures forall i :: 0 <= i < n ==> t[i].outcome.Staged? ==> IsSupportedField(t[i].field)
  {
    if n == 0 then []
    else
      var t := Trace(data, n - 1);
      t + [DecodePair(data, CursorAfter(t))]
  }

  /** The per-pair codes of the acknowledgment, one per pair, in pair order. */
  function Codes(t: seq<Step>): (codes: seq<ParameterErrorCode>)
    ensures |codes| == |t|
  {
    seq(|t|, i requires 0 <= i < |t| => CodeOf(t[i].outcome))
  }

  /** Whether a pair stores a value into slot `k`. */
  predicate WritesSlot(s: Step, k: nat)
  {
    s.outcome.Staged? && s.field == k
  }

  /** The staging array after the given pairs: each decoded value overwrites its field's slot and marks it dirty. */
  function StagingArray(t: seq<Step>): (slots: seq<Slot>)
    ensures |slots| == FieldCount
  {
    if t == [] then seq(FieldCount, _ => EmptySlot)
    else
      var slots := StagingArray(t[..|t| - 1]);
      var last := t[|t| - 1];
      if last.outcome.Staged? && last.field < FieldCount then slots[last.field := Slot(true, last.outcome.value)]
      else slots
  }

  /**
   * The tautological priority test: a priority cannot differ from none of
   * 0x08, 0x0F and 0x09 at once, so every setting is reported as not supported.
   */
  function CommandPriorityErrorCode(prioritySetting: Byte): (pec: TransmissionErrorCode)
    ensures pec == TransmitIntervalOrPriorityNotSupported
  {
    if prioritySetting != 0x08 || prioritySetting != 0x0f || prioritySetting != 0x09 then
      TransmitIntervalOrPriorityNotSupported
    else
      TransmitAcknowledge
  }

  /**
   * HandleCommand on the pair bytes `data` of a command from `source`.
   * Returns the handler's result, the acknowledgment it builds, whether that
   * acknowledgment is sent, and the staged slots passed to the update
   * callback, or None when the callback is not called.
   */
  method HandleCommand(data: seq<Byte>, source: Byte, prioritySetting: Byte, numberOfPairs: Byte)
    returns (handled: bool, ack: Ack, sent: bool, update: Option<seq<Slot>>)
    ensures handled
    // The acknowledgment is always transmitted, whatever the pairs held.
    ensures sent
    ensures ack.destination == source && ack.pgn == ThrusterControlStatusPgn && ack.pgnError == PgnAcknowledge
    ensures ack.transmissionError == TransmitIntervalOrPriorityNotSupported
    ensures ack.declaredPairs == numberOfPairs
    // Exactly one code per declared pair, in pair order, whatever the pair held.
    ensures ack.codes == Codes(Trace(data, numberOfPairs))
    ensures |ack.codes| == numberOfPairs
    // The callback is called exactly when no value was out of range; unknown indices do not stop it.
    ensures update.Some? <==> ParameterOutOfRange !in ack.codes
    ensures update.Some? ==> update.value == StagingArray(Trace(data, numberOfPairs))
    // A slot passed on is dirty exactly when some pair decoded a value for it.
    ensures update.Some? ==> forall k :: 0 <= k < FieldCount ==>
              (update.value[k].dirty <==> exists i :: 0 <= i < numberOfPairs && WritesSlot(Trace(data, numberOfPairs)[i], k))
  {
    var canUpdate := true;
    var fields := new Slot[FieldCount](_ => EmptySlot);
    var pec := CommandPriorityErrorCode(prioritySetting);
    ack := StartAcknowledge(source, pec, numberOfPairs);

    var index: nat := 0;
    ghost var t: seq<Step> := [];
    for i := 0 to numberOfPairs
      invariant t == Trace(data, i)
      invariant index == CursorAfter(t)
      invariant fields[..] == StagingArray(t)
      invariant ack == StartAcknowledge(source, pec, numberOfPairs).(codes := Codes(t))
      invariant canUpdate <==> ParameterOutOfRange !in Codes(t)
    {
      var start := index;
      var read := GetByte(data, index);
      var field := read.0;
      index := read.1;
      var code := Acknowledge;
      var decoded := DecodeValue(field, data, index);
      match decoded.0 {
        case Staged(v) =>
          fields[field] := Slot(true, v);
        case Rejected(c) =>
          code := c;
          if c == ParameterOutOfRange {
            canUpdate := false;
          }
      }
      ack := AddAcknowledgeParameter(ack, code);
      ghost var step := Step(field, decoded.0, decoded.1);
      assert step == DecodePair(data, start);
      assert (t + [step])[..|t|] == t;
      assert Codes(t + [step]) == Codes(t) + [code];
      t := t + [step];
      index := decoded.1;
    }
    sent := true;

    if canUpdate {
      update := Some(fields[..]);
      forall k | 0 <= k < FieldCount
        ensures update.value[k].dirty <==> exists i :: 0 <= i < numberOfPairs && WritesSlot(t[i], k)
      {
        StagedSlot(t, k);
      }
    } else {
      update := None;
    }
    handled := true;
  }

  /** Cutting the last pairs off a trace gives the trace of fewer pairs. */
  lemma {:induction false} TracePrefix(data: seq<Byte>, m: nat, n: nat)
    requires m <= n
    ensures Trace(data, n)[..m] == Trace(data, m)
  {
    if m < n {
      TracePrefix(data, m, n - 1);
      assert Trace(data, n)[..n - 1] == Trace(data, n - 1);
      assert Trace(data, n)[..m] == Trace(data, n)[..n - 1][..m];
    }
  }

  /**
   * A slot of the staging array is dirty exactly when some pair decoded a
   * value for its index; then it holds the value of the last such pair, and
   * otherwise it keeps its initial all-zero value.
   */
  lemma {:induction false} StagedSlot(t: seq<Step>, k: nat)
    requires k < FieldCount
    ensures StagingArray(t)[k].dirty <==> exists i :: 0 <= i < |t| && WritesSlot(t[i], k)
    ensures !StagingArray(t)[k].dirty ==> StagingArray(t)[k] == EmptySlot
    ensures forall i :: 0 <= i < |t| && WritesSlot(t[i], k) && (forall j :: i < j < |t| ==> !WritesSlot(t[j], k))
              ==> StagingArray(t)[k].value == t[i].outcome.value
  {
    if t != [] {
      var init := t[..|t| - 1];
      var last := t[|t| - 1];
      StagedSlot(init, k);
      var before := StagingArray(init)[k];
      var after := StagingArray(t)[k];
      if WritesSlot(last, k) {
        assert after == Slot(true, last.outcome.value);
        assert WritesSlot(t[|t| - 1], k);
        forall i | 0 <= i < |t| && WritesSlot(t[i], k) && (forall j :: i < j < |t| ==> !WritesSlot(t[j], k))
          ensures after.value == t[i].outcome.value
        {
          assert i == |t| - 1;
        }
      } else {
        assert after == before;
        assert (exists i :: 0 <= i < |t| && WritesSlot(t[i], k)) ==> exists i :: 0 <= i < |init| && WritesSlot(init[i], k);
        assert (exists i :: 0 <= i < |init| && WritesSlot(init[i], k)) ==> exists i :: 0 <= i < |t| && WritesSlot(t[i], k);
        forall i | 0 <= i < |t| && WritesSlot(t[i], k) && (forall j :: i < j < |t| ==> !WritesSlot(t[j], k))
          ensures after.value == t[i].outcome.value
        {
          assert i < |init| && init[i] == t[i];
          assert forall j :: i < j < |init| ==> init[j] == t[j];
        }
      }
    }
  }

  /**
   * Once the cursor has run off the end of the payload, every further pair
   * reads the index byte 0xFF: it is acknowledged as an invalid field, stages
   * nothing, and leaves the cursor where it is.
   */
  lemma {:induction false} ExhaustedPayload(data: seq<Byte>, m: nat, n: nat)
    requires m <= n
    requires |data| <= CursorAfter(Trace(data, m))
    ensures forall j :: m <= j < n ==> Trace(data, n)[j] == Step(ByteNotAvailable, Rejected(InvalidField), CursorAfter(Trace(data, m)))
  {
    if m < n {
      ExhaustedPayload(data, m, n - 1);
      var t := Trace(data, n - 1);
      TracePrefix(data, m, n - 1);
      if m < n - 1 {
        assert CursorAfter(t) == t[n - 2].next;
      }
      assert CursorAfter(t) == CursorAfter(Trace(data, m));
      assert Trace(data, n) == t + [DecodePair(data, CursorAfter(t))];
    }
  }

  /**
   * An unknown index consumes only its own byte, so the byte meant as its
   * value is read as the next pair's index. Here the pairs (0, 3) and (2, ..)
   * are read as an invalid field 0 and the field 3 with value 2: the
   * acknowledgment reads [InvalidField, Acknowledge], and since an invalid
   * field does not close the apply gate, slot 3 is staged as ThrusterToPort.
   */
  lemma InvalidIndexShiftsCursor()
    ensures Codes(Trace([0, 3, 2], 2)) == [InvalidField, Acknowledge]
    ensures CursorAfter(Trace([0, 3, 2], 2)) == 3
    ensures StagingArray(Trace([0, 3, 2], 2))[3] == Slot(true, F03(ThrusterToPort))
  {
  }

  /**
   * An out-of-range value in one pair leaves the other pairs' codes and
   * slots as they are but closes the apply gate: a direction nibble 4 after
   * a valid identifier.
   */
  lemma OutOfRangeClosesGate()
    ensures Codes(Trace([2, 7, 3, 4], 2)) == [Acknowledge, ParameterOutOfRange]
    ensures ParameterOutOfRange in Codes(Trace([2, 7, 3, 4], 2))
    ensures StagingArray(Trace([2, 7, 3, 4], 2))[2] == Slot(true, F02(7))
    ensures StagingArray(Trace([2, 7, 3, 4], 2))[3] == EmptySlot
  {
  }
}
