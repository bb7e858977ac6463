/** What the decoder of dns.py guarantees, proved about the functions of
    module Dns (and therefore about ParsingSession, which computes them). */
module DnsProperties {
  import opened Common
  import Text
  import opened Dns

  // ---------------------------------------------------------------- flags and header

  /** Unpacking in-range fields after packing them returns the same fields:
      with ParseFlags' own contract, the ten masks cover the word exactly. */
  lemma FlagsRoundTrip(f: Flags)
    requires FlagsInRange(f)
    ensures ParseFlags(PackFlags(f)) == f
  {
  }

  /** The big-endian octets of a 16-bit value. */
  function WordBytes(v: nat): (bs: seq<byte>)
    requires v < 0x1_0000
    ensures |bs| == 2
  {
    [v / 0x100, v % 0x100]
  }

  /** The header is the first 12 octets read as six big-endian words: id,
      flags, and the four section counts. */
  lemma HeaderLayout(buf: seq<byte>)
    ensures HeaderOf(buf).Success? <==> |buf| >= HEADER_SIZE
    ensures HeaderOf(buf).Success? ==>
      var h := HeaderOf(buf).value;
      && buf[0..2] == WordBytes(h.id)
      && PackFlags(h.flags) == FlagsWord(buf, 2)
      && buf[4..12] == WordBytes(h.qdCount) + WordBytes(h.anCount) + WordBytes(h.nsCount) + WordBytes(h.arCount)
  {
    if |buf| >= HEADER_SIZE {
      WordOctets(buf, 0);
      WordOctets(buf, 4);
      WordOctets(buf, 6);
      WordOctets(buf, 8);
      WordOctets(buf, 10);
      assert buf[4..12] == buf[4..6] + buf[6..8] + buf[8..10] + buf[10..12];
    }
  }

  lemma WordOctets(buf: seq<byte>, i: nat)
    requires i + 2 <= |buf|
    ensures WordBytes(Word(buf, i)) == buf[i..i + 2]
  {
    var hi: nat, lo: nat := buf[i], buf[i + 1];
    assert Word(buf, i) == hi * 0x100 + lo;
    assert (hi * 0x100 + lo) / 0x100 == hi && (hi * 0x100 + lo) % 0x100 == lo;
  }

  // ---------------------------------------------------------------- sections

  /** A successful parse has exactly as many entries in each section as the
      header announces. */
  lemma SectionCounts(buf: seq<byte>)
    requires PackageOf(buf).Success?
    ensures |buf| >= HEADER_SIZE
    ensures var p := PackageOf(buf).value;
      && |p.queries| == Word(buf, 4) && |p.answers| == Word(buf, 6)
      && |p.authorities| == Word(buf, 8) && |p.additional| == Word(buf, 10)
      && p.flags == ParseFlags(FlagsWord(buf, 2))
  {
  }

  /** The question section of a parsed message is the one read from offset 12. */
  lemma QueriesAfterHeader(buf: seq<byte>)
    requires PackageOf(buf).Success?
    ensures |buf| >= HEADER_SIZE
    ensures QueriesFrom(buf, HEADER_SIZE, Word(buf, 4), []).Success?
    ensures PackageOf(buf).value.queries == QueriesFrom(buf, HEADER_SIZE, Word(buf, 4), []).value.0
  {
  }

  /** A non-empty run of question entries starts with the one at its offset. */
  lemma FirstQuery(buf: seq<byte>, pos: nat, count: nat)
    requires count > 0 && QueriesFrom(buf, pos, count, []).Success?
    ensures QueryAt(buf, pos).Success?
    ensures QueriesFrom(buf, pos, count, []).value.0[0] == QueryAt(buf, pos).value.0
  {
    var first := QueryAt(buf, pos);
    assert first.Success?;
    var rest := QueriesFrom(buf, first.value.1, count - 1, [first.value.0]);
    assert [] + [first.value.0] == [first.value.0];
    assert QueriesFrom(buf, pos, count, []) == rest;
    assert rest.value.0[..1] == [first.value.0];
  }

  /** Section parsing starts right after the header: the first question is the
      one at offset 12. */
  lemma FirstQueryAfterHeader(buf: seq<byte>)
    requires PackageOf(buf).Success? && |PackageOf(buf).value.queries| > 0
    ensures QueryAt(buf, HEADER_SIZE).Success?
    ensures PackageOf(buf).value.queries[0] == QueryAt(buf, HEADER_SIZE).value.0
  {
    QueriesAfterHeader(buf);
    FirstQuery(buf, HEADER_SIZE, Word(buf, 4));
  }

  // ---------------------------------------------------------------- entries

  /** A question entry is accepted exactly when its type is A, NS, PTR or AAAA
      and its class is IN; otherwise the type is reported first, then the class. */
  lemma QueryTypeAndClass(buf: seq<byte>, offset: nat)
    requires NameAt(buf, offset).Success? && NameAt(buf, offset).value.1 + 4 <= |buf|
    ensures var pos := NameAt(buf, offset).value.1;
      var code, cls := Word(buf, pos), Word(buf, pos + 2);
      && (code !in {1, 2, 12, 28} ==> QueryAt(buf, offset) == Failure(UnsupportedType(code)))
      && (code in {1, 2, 12, 28} && cls != CLASS_IN ==> QueryAt(buf, offset) == Failure(UnsupportedClass(cls)))
      && (code in {1, 2, 12, 28} && cls == CLASS_IN ==>
            QueryAt(buf, offset) == Success((Query(TypeOf(code).value, NameAt(buf, offset).value.0), pos + 4)))
  {
  }

  /** The same acceptance rule for resource records. */
  lemma AnswerTypeAndClass(buf: seq<byte>, offset: nat)
    requires NameAt(buf, offset).Success? && NameAt(buf, offset).value.1 + 10 <= |buf|
    ensures var pos := NameAt(buf, offset).value.1;
      var code, cls := Word(buf, pos), Word(buf, pos + 2);
      && (code !in {1, 2, 12, 28} ==> AnswerAt(buf, offset) == Failure(UnsupportedType(code)))
      && (code in {1, 2, 12, 28} && cls != CLASS_IN ==> AnswerAt(buf, offset) == Failure(UnsupportedClass(cls)))
      && (AnswerAt(buf, offset).Success? ==> code in {1, 2, 12, 28} && cls == CLASS_IN)
  {
  }

  /** An A or AAAA record carries exactly the rdlength octets after the 10-byte
      type/class/ttl/rdlength block, and the offset moves past them. */
  lemma AddressRecordLayout(buf: seq<byte>, offset: nat)
    requires AnswerAt(buf, offset).Success?
    requires AnswerAt(buf, offset).value.0.rtype in {A, AAAA}
    ensures NameAt(buf, offset).Success?
    ensures var pos := NameAt(buf, offset).value.1;
      var (a, end) := AnswerAt(buf, offset).value;
      && pos + 10 <= end <= |buf|
      && end == pos + 10 + Word(buf, pos + 8)
      && a.data == Raw(buf[pos + 10..end])
      && a.name == NameAt(buf, offset).value.0
      && a.ttl == Long(buf, pos + 4)
      && TypeCode(a.rtype) == Word(buf, pos)
  {
  }

  /** An NS or PTR record carries the name that starts right after the 10-byte
      block, and the offset moves past that name. */
  lemma NameRecordLayout(buf: seq<byte>, offset: nat)
    requires AnswerAt(buf, offset).Success?
    requires AnswerAt(buf, offset).value.0.rtype in {NS, PTR}
    ensures NameAt(buf, offset).Success?
    ensures var pos := NameAt(buf, offset).value.1;
      var (a, end) := AnswerAt(buf, offset).value;
      && NameAt(buf, pos + 10).Success?
      && a.data == DomainName(NameAt(buf, pos + 10).value.0)
      && end == NameAt(buf, pos + 10).value.1
      && a.ttl == Long(buf, pos + 4)
  {
  }

  // ---------------------------------------------------------------- names

  /** A zero length byte ends the name and is consumed alone. */
  lemma NameEndsAtZero(buf: seq<byte>, start: nat, pos: nat, parts: seq<string>)
    requires pos < |buf| && buf[pos] == 0
    ensures NameFrom(buf, start, pos, parts) == Success((Text.Join(parts, "."), pos + 1))
  {
  }

  /** A pointer ends the name after exactly two octets; the rest of the name is
      the one decoded at the 14-bit target, which must lie before the start
      of the current name. */
  lemma NameEndsAfterPointer(buf: seq<byte>, start: nat, pos: nat, parts: seq<string>)
    requires pos + 1 < |buf| && IsPointer(buf[pos])
    ensures var target := PointerTarget(buf[pos], buf[pos + 1]);
      var r := NameFrom(buf, start, pos, parts);
      && (target >= start ==> r == Failure(BadPointer(target, pos)))
      && (r.Success? ==>
            && r.value.1 == pos + 2
            && NameAt(buf, target).Success?
            && r.value.0 == Text.Join(parts + [NameAt(buf, target).value.0], "."))
  {
  }

  /** In particular a pointer at the start of a name that targets its own
      position or anything after it is rejected instead of looping. */
  lemma ForwardPointerRejected(buf: seq<byte>, pos: nat)
    requires pos + 1 < |buf| && IsPointer(buf[pos]) && PointerTarget(buf[pos], buf[pos + 1]) >= pos
    ensures NameAt(buf, pos) == Failure(BadPointer(PointerTarget(buf[pos], buf[pos + 1]), pos))
  {
  }

  /** The guard compares the target with the start of the name, so a pointer
      back into the name's own labels is rejected too: here the pointer at 4
      targets 2, inside the 3-octet label that opens the name at 0. */
  lemma PointerIntoOwnNameRejected()
    ensures NameAt([3, 0x61, 0, 0x62, 0xC0, 2], 0) == Failure(BadPointer(2, 4))
  {
  }

  /** The same after any run of labels: a pointer that follows them and
      targets the name's start or anything after it is rejected, naming the
      target and the pointer's own offset. */
  lemma PointerAfterLabelsRejected(buf: seq<byte>, p: nat, prefix: seq<seq<byte>>)
    requires ValidLabels(prefix) && EncodedAt(buf, p, EncodeLabels(prefix))
    requires var at := p + |EncodeLabels(prefix)|;
      at + 1 < |buf| && IsPointer(buf[at]) && PointerTarget(buf[at], buf[at + 1]) >= p
    ensures var at := p + |EncodeLabels(prefix)|;
      NameAt(buf, p) == Failure(BadPointer(PointerTarget(buf[at], buf[at + 1]), at))
  {
    EncodedLabelsAt(buf, p, prefix);
    LabelsFirst(buf, p, prefix);
  }

  /** Labels of 1 to 63 octets, the only ones an uncompressed name carries. */
  predicate ValidLabels(labels: seq<seq<byte>>)
  {
    forall i :: 0 <= i < |labels| ==> 1 <= |labels[i]| <= 63
  }

  /** Reference layout of labels: each one prefixed by its length. */
  function EncodeLabels(labels: seq<seq<byte>>): (bs: seq<byte>)
    requires ValidLabels(labels)
    ensures |bs| >= |labels|
  {
    if |labels| == 0 then [] else [|labels[0]|] + labels[0] + EncodeLabels(labels[1..])
  }

  /** Reference layout of an uncompressed name: its labels, then a zero byte. */
  function EncodeName(labels: seq<seq<byte>>): seq<byte>
    requires ValidLabels(labels)
  {
    EncodeLabels(labels) + [0]
  }

  function LabelStrings(labels: seq<seq<byte>>): (names: seq<string>)
    ensures |names| == |labels|
  {
    seq(|labels|, i requires 0 <= i < |labels| => Label(labels[i]))
  }

  /** The octets `enc` sit in buf at pos. */
  predicate EncodedAt(buf: seq<byte>, pos: nat, enc: seq<byte>)
  {
    pos + |enc| <= |buf| && buf[pos..pos + |enc|] == enc
  }

  /** One label in front of a name: its length octet, then its octets. */
  lemma LabelStep(buf: seq<byte>, start: nat, pos: nat, parts: seq<string>, l: seq<byte>)
    requires 1 <= |l| <= 63 && pos + 1 + |l| <= |buf|
    requires buf[pos] == |l| && buf[pos + 1..pos + 1 + |l|] == l
    ensures NameFrom(buf, start, pos, parts) == NameFrom(buf, start, pos + 1 + |l|, parts + [Label(l)])
  {
  }

  /** A piece of an encoding sits at the matching place in the buffer. */
  lemma PieceAt(buf: seq<byte>, pos: nat, enc: seq<byte>, i: nat, j: nat)
    requires EncodedAt(buf, pos, enc) && i <= j <= |enc|
    ensures buf[pos + i..pos + j] == enc[i..j]
  {
    var piece := buf[pos + i..pos + j];
    assert |piece| == |enc[i..j]|;
    forall k | 0 <= k < j - i
      ensures piece[k] == enc[i..j][k]
    {
      assert piece[k] == buf[pos + i + k] == buf[pos..pos + |enc|][i + k];
    }
  }

  /** Where a length-prefixed label sits, and where what follows it begins. */
  lemma LabelAt(buf: seq<byte>, pos: nat, l: seq<byte>, rest: seq<byte>)
    requires |l| < 0x100 && EncodedAt(buf, pos, [|l|] + l + rest)
    ensures pos + 1 + |l| <= |buf| && buf[pos] == |l| && buf[pos + 1..pos + 1 + |l|] == l
    ensures EncodedAt(buf, pos + 1 + |l|, rest)
  {
    var enc := [|l|] + l + rest;
    assert buf[pos] == |l| by {
      PieceAt(buf, pos, enc, 0, 1);
    }
    assert buf[pos + 1..pos + 1 + |l|] == l by {
      PieceAt(buf, pos, enc, 1, 1 + |l|);
      assert enc[1..1 + |l|] == l;
    }
    assert buf[pos + 1 + |l|..pos + |enc|] == rest by {
      PieceAt(buf, pos, enc, 1 + |l|, |enc|);
      assert enc[1 + |l|..|enc|] == rest;
    }
  }

  /** The labels sit in buf from pos on, each one after its length octet. */
  predicate LabelsAt(buf: seq<byte>, pos: nat, labels: seq<seq<byte>>)
    decreases |labels|
  {
    |labels| == 0 ||
    var l := labels[0];
    && 1 <= |l| <= 63 && pos + 1 + |l| <= |buf|
    && buf[pos] == |l| && buf[pos + 1..pos + 1 + |l|] == l
    && LabelsAt(buf, pos + 1 + |l|, labels[1..])
  }

  /** Labels encoded at pos sit there one after the other. */
  lemma {:induction false} EncodedLabelsAt(buf: seq<byte>, pos: nat, labels: seq<seq<byte>>)
    requires ValidLabels(labels) && EncodedAt(buf, pos, EncodeLabels(labels))
    ensures LabelsAt(buf, pos, labels)
    decreases |labels|
  {
    if |labels| > 0 {
      var l := labels[0];
      var tail := labels[1..];
      var rest := EncodeLabels(tail);
      assert EncodeLabels(labels) == [|l|] + l + rest;
      assert ValidLabels(tail);
      LabelAt(buf, pos, l, rest);
      EncodedLabelsAt(buf, pos + 1 + |l|, tail);
    }
  }

  /** Length-prefixed labels are consumed one by one, each one added to the parts. */
  lemma {:induction false} LabelsDecode(buf: seq<byte>, start: nat, pos: nat, parts: seq<string>, labels: seq<seq<byte>>)
    requires ValidLabels(labels) && LabelsAt(buf, pos, labels)
    ensures NameFrom(buf, start, pos, parts)
         == NameFrom(buf, start, pos + |EncodeLabels(labels)|, parts + LabelStrings(labels))
    decreases |labels|
  {
    if |labels| == 0 {
      assert EncodeLabels(labels) == [];
      assert parts + LabelStrings(labels) == parts;
    } else {
      var l := labels[0];
      var tail := labels[1..];
      var next := pos + 1 + |l|;
      var step := parts + [Label(l)];
      assert EncodeLabels(labels) == [|l|] + l + EncodeLabels(tail);
      assert next + |EncodeLabels(tail)| == pos + |EncodeLabels(labels)|;
      assert step + LabelStrings(tail) == parts + LabelStrings(labels) by {
        assert LabelStrings(labels) == [Label(l)] + LabelStrings(tail);
      }
      assert ValidLabels(tail);
      LabelStep(buf, start, pos, parts, l);
      LabelsDecode(buf, start, next, step, tail);
    }
  }

  /** An uncompressed name decodes to its labels joined by dots, and the
      offset moves past its zero byte. */
  lemma UncompressedName(buf: seq<byte>, pos: nat, labels: seq<seq<byte>>)
    requires ValidLabels(labels) && EncodedAt(buf, pos, EncodeName(labels))
    ensures NameAt(buf, pos) == Success((Text.Join(LabelStrings(labels), "."), pos + |EncodeName(labels)|))
  {
    var enc := EncodeLabels(labels);
    assert EncodedAt(buf, pos, enc) by {
      assert EncodeName(labels)[..|enc|] == enc;
    }
    EncodedLabelsAt(buf, pos, labels);
    LabelsDecode(buf, pos, pos, [], labels);
    assert buf[pos + |enc|] == EncodeName(labels)[|enc|] == 0;
    assert [] + LabelStrings(labels) == LabelStrings(labels);
  }

  /** One pointer step whose target decodes: the name ends two octets on. */
  lemma PointerStep(buf: seq<byte>, start: nat, pos: nat, parts: seq<string>, q: nat)
    requires pos + 1 < |buf| && IsPointer(buf[pos]) && PointerTarget(buf[pos], buf[pos + 1]) == q
    requires q < start && NameAt(buf, q).Success?
    ensures NameFrom(buf, start, pos, parts) == Success((Text.Join(parts + [NameAt(buf, q).value.0], "."), pos + 2))
  {
  }

  /** The two octets of a pointer to q. */
  lemma PointerOctets(q: nat) returns (octets: seq<byte>)
    requires q < 0x4000
    ensures 0xC0 + q / 0x100 < 0x100
    ensures octets == [0xC0 + q / 0x100, q % 0x100]
    ensures IsPointer(octets[0]) && PointerTarget(octets[0], octets[1]) == q
  {
    octets := [0xC0 + q / 0x100, q % 0x100];
  }

  /** Labels followed by two more octets: the labels are consumed, and the two
      octets are where decoding continues. */
  lemma PrefixThenTail(buf: seq<byte>, p: nat, prefix: seq<seq<byte>>, tail: seq<byte>)
    requires ValidLabels(prefix) && |tail| == 2 && EncodedAt(buf, p, EncodeLabels(prefix) + tail)
    ensures var at := p + |EncodeLabels(prefix)|;
      && at + 1 < |buf| && buf[at] == tail[0] && buf[at + 1] == tail[1]
      && NameAt(buf, p) == NameFrom(buf, p, at, LabelStrings(prefix))
  {
    var enc := EncodeLabels(prefix);
    TwoAfter(buf, p, enc, tail);
    EncodedLabelsAt(buf, p, prefix);
    LabelsFirst(buf, p, prefix);
  }

  /** Two octets after an encoding sit right after it in the buffer. */
  lemma TwoAfter(buf: seq<byte>, p: nat, enc: seq<byte>, tail: seq<byte>)
    requires |tail| == 2 && EncodedAt(buf, p, enc + tail)
    ensures EncodedAt(buf, p, enc)
    ensures p + |enc| + 1 < |buf| && buf[p + |enc|] == tail[0] && buf[p + |enc| + 1] == tail[1]
  {
    var all := enc + tail;
    assert buf[p..p + |enc|] == enc by {
      PieceAt(buf, p, all, 0, |enc|);
      assert all[0..|enc|] == enc;
    }
    var window := buf[p..p + |all|];
    assert window == all;
    assert buf[p + |enc|] == window[|enc|] == all[|enc|] == tail[0];
    assert buf[p + |enc| + 1] == window[|enc| + 1] == all[|enc| + 1] == tail[1];
  }

  /** A name that starts with encoded labels reads them all first. */
  lemma LabelsFirst(buf: seq<byte>, p: nat, labels: seq<seq<byte>>)
    requires ValidLabels(labels) && LabelsAt(buf, p, labels)
    ensures NameAt(buf, p) == NameFrom(buf, p, p + |EncodeLabels(labels)|, LabelStrings(labels))
  {
    LabelsDecode(buf, p, p, [], labels);
    assert [] + LabelStrings(labels) == LabelStrings(labels);
  }

  /** A name whose tail is a pointer to an earlier name decodes to all its
      labels, those before the pointer and those the name pointed to decodes
      to, whether that name is written out or itself compressed. */
  lemma PointerTailDecodes(buf: seq<byte>, p: nat, q: nat, prefix: seq<seq<byte>>, suffix: seq<seq<byte>>)
    requires ValidLabels(prefix) && |suffix| >= 1
    requires q < p && q < 0x4000
    requires NameAt(buf, q).Success? && NameAt(buf, q).value.0 == Text.Join(LabelStrings(suffix), ".")
    requires EncodedAt(buf, p, EncodeLabels(prefix) + [0xC0 + q / 0x100, q % 0x100])
    ensures NameAt(buf, p) == Success((Text.Join(LabelStrings(prefix + suffix), "."), p + |EncodeLabels(prefix)| + 2))
  {
    var front := LabelStrings(prefix);
    var ending := Text.Join(LabelStrings(suffix), ".");
    assert LabelsAt(buf, p, prefix) by {
      PointerAt(buf, p, EncodeLabels(prefix), q);
      EncodedLabelsAt(buf, p, prefix);
    }
    PointerAfterLabels(buf, p, q, prefix);
    assert Text.Join(front + [ending], ".") == Text.Join(LabelStrings(prefix + suffix), ".") by {
      Text.JoinNested(front, LabelStrings(suffix), ".");
      LabelStringsAppend(prefix, suffix);
    }
  }

  /** Labels, then a pointer to an earlier name that decodes: the labels and
      the name pointed to, joined. */
  lemma PointerAfterLabels(buf: seq<byte>, p: nat, q: nat, prefix: seq<seq<byte>>)
    requires ValidLabels(prefix) && LabelsAt(buf, p, prefix)
    requires var at := p + |EncodeLabels(prefix)|;
      at + 1 < |buf| && IsPointer(buf[at]) && PointerTarget(buf[at], buf[at + 1]) == q
    requires q < p && NameAt(buf, q).Success?
    ensures NameAt(buf, p)
         == Success((Text.Join(LabelStrings(prefix) + [NameAt(buf, q).value.0], "."), p + |EncodeLabels(prefix)| + 2))
  {
    var at := p + |EncodeLabels(prefix)|;
    var front := LabelStrings(prefix);
    var r := Success((Text.Join(front + [NameAt(buf, q).value.0], "."), at + 2));
    assert NameFrom(buf, p, at, front) == r by {
      PointerStep(buf, p, at, front, q);
    }
    assert NameAt(buf, p) == NameFrom(buf, p, at, front) by {
      LabelsFirst(buf, p, prefix);
    }
  }

  /** A pointer to q written after an encoding: the encoding is in place,
      and the octets after it are that pointer. */
  lemma PointerAt(buf: seq<byte>, p: nat, enc: seq<byte>, q: nat)
    requires q < 0x4000 && EncodedAt(buf, p, enc + [0xC0 + q / 0x100, q % 0x100])
    ensures EncodedAt(buf, p, enc)
    ensures p + |enc| + 1 < |buf| && IsPointer(buf[p + |enc|]) && PointerTarget(buf[p + |enc|], buf[p + |enc| + 1]) == q
  {
    var tail := PointerOctets(q);
    TwoAfter(buf, p, enc, tail);
  }

  lemma LabelStringsAppend(a: seq<seq<byte>>, b: seq<seq<byte>>)
    ensures LabelStrings(a + b) == LabelStrings(a) + LabelStrings(b)
  {
    var l, r := LabelStrings(a + b), LabelStrings(a) + LabelStrings(b);
    assert |l| == |r|;
    forall i | 0 <= i < |l|
      ensures l[i] == r[i]
    {
      if i < |a| {
        assert (a + b)[i] == a[i];
      } else {
        assert (a + b)[i] == b[i - |a|];
      }
    }
  }

  /** Compression is invisible in the result: a name that ends in a pointer to
      an earlier name, itself written out or compressed, decodes to the same
      string as the same labels written out uncompressed. */
  lemma CompressedName(buf: seq<byte>, p: nat, q: nat, prefix: seq<seq<byte>>, suffix: seq<seq<byte>>)
    requires ValidLabels(prefix) && ValidLabels(suffix) && |suffix| >= 1
    requires q < p && q < 0x4000
    requires NameAt(buf, q).Success? && NameAt(buf, q).value.0 == Text.Join(LabelStrings(suffix), ".")
    requires EncodedAt(buf, p, EncodeLabels(prefix) + [0xC0 + q / 0x100, q % 0x100])
    ensures NameAt(buf, p).Success? && ValidLabels(prefix + suffix)
    ensures var plain := EncodeName(prefix + suffix);
      NameAt(plain, 0) == Success((NameAt(buf, p).value.0, |plain|))
  {
    PointerTailDecodes(buf, p, q, prefix, suffix);
    var plain := EncodeName(prefix + suffix);
    assert plain[0..|plain|] == plain;
    UncompressedName(plain, 0, prefix + suffix);
  }

  /** Two levels of compression: labels, then a pointer to a name that is
      labels and a pointer to a name written out. The result is all three runs
      of labels joined, as if the name were written out in full. */
  lemma PointerChain(buf: seq<byte>, p: nat, q: nat, r: nat,
                     prefix: seq<seq<byte>>, middle: seq<seq<byte>>, suffix: seq<seq<byte>>)
    requires ValidLabels(prefix) && ValidLabels(middle) && ValidLabels(suffix) && |suffix| >= 1
    requires r < q < p && q < 0x4000
    requires EncodedAt(buf, r, EncodeName(suffix))
    requires EncodedAt(buf, q, EncodeLabels(middle) + [0xC0 + r / 0x100, r % 0x100])
    requires EncodedAt(buf, p, EncodeLabels(prefix) + [0xC0 + q / 0x100, q % 0x100])
    ensures NameAt(buf, p)
         == Success((Text.Join(LabelStrings(prefix + middle + suffix), "."), p + |EncodeLabels(prefix)| + 2))
  {
    UncompressedName(buf, r, suffix);
    PointerTailDecodes(buf, q, r, middle, suffix);
    PointerTailDecodes(buf, p, q, prefix, middle + suffix);
    assert prefix + (middle + suffix) == prefix + middle + suffix;
  }
}
