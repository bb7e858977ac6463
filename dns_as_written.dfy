/** Three readers of dns.py as they are written, each set beside the decoder
    of module Dns that the rest of the model uses, with the inputs that tell
    them apart. */
module DnsAsWritten {
  import opened Common
  import Text
  import opened Dns
  import opened DnsProperties

  /** Exceptions the source raises outside ParserError. */
  datatype Raised = IndexError | AttributeError | RecursionError

  /** `_read_string` exactly as written (dns.py:142-167). A literal label calls
      `.decode()` on an int and raises AttributeError (before any label could
      reach `parts`), and a pointer is followed with no guard. `depth` is the
      interpreter's recursion limit: reaching it raises RecursionError. */
  function ReadStringAsWritten(buf: seq<byte>, offset: nat, depth: nat): (r: Result<(string, nat), Raised>)
    ensures r.Success? ==> offset < |buf| && (buf[offset] == 0 || IsPointer(buf[offset]))
    ensures r.Success? ==> r.value.1 == if buf[offset] == 0 then offset + 1 else offset + 2
    ensures r == Failure(AttributeError) ==> exists p: nat :: p < |buf| && buf[p] != 0 && !IsPointer(buf[p])
    ensures offset < |buf| && buf[offset] != 0 && !IsPointer(buf[offset]) ==>
              r == if offset + 1 >= |buf| then Failure(IndexError) else Failure(AttributeError)
    decreases depth
  {
    if offset >= |buf| then Failure(IndexError)
    else if buf[offset] == 0 then Success((Text.Join([], "."), offset + 1))
    else if IsPointer(buf[offset]) then
      if offset + 1 >= |buf| then Failure(IndexError)
      else if depth == 0 then Failure(RecursionError)
      else
        match ReadStringAsWritten(buf, PointerTarget(buf[offset], buf[offset + 1]), depth - 1)
        case Failure(e) => Failure(e)
        case Success((ending, _)) => Success((Text.Join([ending], "."), offset + 2))
    else if offset + 1 >= |buf| then Failure(IndexError)
    else Failure(AttributeError)
  }

  /** Every name that carries at least one label makes the reader as written
      raise, while the corrected decoder returns the labels joined by dots. */
  lemma LabelsNeverDecoded(buf: seq<byte>, pos: nat, labels: seq<seq<byte>>, depth: nat)
    requires |labels| >= 1 && ValidLabels(labels) && EncodedAt(buf, pos, EncodeName(labels))
    ensures ReadStringAsWritten(buf, pos, depth) == Failure(AttributeError)
    ensures NameAt(buf, pos) == Success((Text.Join(LabelStrings(labels), "."), pos + |EncodeName(labels)|))
  {
    var enc := EncodeName(labels);
    assert buf[pos] == enc[0] == |labels[0]|;
    assert buf[pos + 1] == enc[1];
    UncompressedName(buf, pos, labels);
  }

  /** A pointer to itself: the reader as written recurses until the interpreter
      gives up, for every recursion limit; the guarded decoder rejects it. */
  lemma {:induction false} SelfPointerNeverReturns(depth: nat)
    ensures ReadStringAsWritten([0xC0, 0x00], 0, depth) == Failure(RecursionError)
    ensures NameAt([0xC0, 0x00], 0) == Failure(BadPointer(0, 0))
    decreases depth
  {
    if depth > 0 {
      SelfPointerNeverReturns(depth - 1);
    }
  }

  /** The A/AAAA rdata read as written (dns.py:133-134): a slice, which comes
      back short without complaint when the datagram ends early, and an
      offset moved by rdlength regardless. */
  function RDataAsWritten(buf: seq<byte>, start: nat, length: nat): (r: (seq<byte>, nat))
    requires start <= |buf|
    ensures r.1 == start + length
    ensures |r.0| <= length && start + |r.0| <= |buf| && r.0 == buf[start..start + |r.0|]
    ensures |r.0| == length <==> start + length <= |buf|
  {
    (buf[start..if start + length <= |buf| then start + length else |buf|], start + length)
  }

  /** When rdlength runs past the end of the datagram, the slice as written
      yields fewer octets than announced and an offset beyond the end; the
      corrected reader reports the short buffer. */
  lemma TruncatedRDataAccepted(buf: seq<byte>, start: nat, length: nat)
    requires start <= |buf| < start + length
    ensures |RDataAsWritten(buf, start, length).0| < length
    ensures RDataAsWritten(buf, start, length).1 > |buf|
    ensures RDataAt(buf, start, length) == Failure(ShortBuffer(|buf|))
  {
  }
}
