/** The sequential part of transferRtp in transport.go: every packet read is stripped
    in place, and it is sent on the channel when a non-empty window remains and dropped
    otherwise. Socket reads become a sequence of packets already read, the channel
    becomes the sequence of packets sent. */
module Transfer {
  import opened RtpHeader
  import opened Transport

  predicate AllStrippable(ds: seq<Datagram>) {
    forall i :: 0 <= i < |ds| ==> Strippable(ds[i])
  }

  /** Every packet read, after stripping, in arrival order. */
  function StripAll(ds: seq<Datagram>): (ss: seq<Datagram>)
    requires AllStrippable(ds)
    ensures |ss| == |ds|
    ensures forall i :: 0 <= i < |ds| ==> ss[i] == Strip(ds[i])
  {
    if ds == [] then [] else StripAll(ds[..|ds| - 1]) + [Strip(ds[|ds| - 1])]
  }

  /** The stripped packets that are sent: those with a non-empty window, in order. */
  function Forwarded(ss: seq<Datagram>): (sent: seq<Datagram>)
    ensures |sent| <= |ss|
    ensures forall k :: 0 <= k < |sent| ==> HasPayload(sent[k])
  {
    if ss == [] then []
    else
      var earlier := Forwarded(ss[..|ss| - 1]);
      var pkt := ss[|ss| - 1];
      if HasPayload(pkt) then earlier + [pkt] else earlier
  }

  /** What transferRtp has sent, in order, once it has read ds. */
  function TransferRtp(ds: seq<Datagram>): (sent: seq<Datagram>)
    requires AllStrippable(ds)
    ensures |sent| <= |ds|
    ensures forall k :: 0 <= k < |sent| ==> HasPayload(sent[k])
  {
    Forwarded(StripAll(ds))
  }

  /** The arrival positions of the packets that are sent: increasing, and holding
      exactly the positions whose window is non-empty. */
  function SentIndices(ss: seq<Datagram>): (idx: seq<int>)
    ensures forall k :: 0 <= k < |idx| ==> 0 <= idx[k] < |ss| && HasPayload(ss[idx[k]])
    ensures forall k, l :: 0 <= k < l < |idx| ==> idx[k] < idx[l]
  {
    if ss == [] then []
    else
      var n := |ss| - 1;
      var earlier := SentIndices(ss[..n]);
      assert forall k :: 0 <= k < |earlier| ==> ss[..n][earlier[k]] == ss[earlier[k]];
      if HasPayload(ss[n]) then earlier + [n] else earlier
  }

  /** No packet with a non-empty window is left out. */
  lemma {:induction false} SentIndicesComplete(ss: seq<Datagram>)
    ensures forall i :: 0 <= i < |ss| && HasPayload(ss[i]) ==> i in SentIndices(ss)
  {
    if ss != [] {
      var n := |ss| - 1;
      SentIndicesComplete(ss[..n]);
      assert forall i :: 0 <= i < n ==> ss[..n][i] == ss[i];
    }
  }

  /** The k-th packet sent is the one at the k-th sent position. */
  lemma {:induction false} ForwardedInOrder(ss: seq<Datagram>)
    ensures |Forwarded(ss)| == |SentIndices(ss)|
    ensures forall k :: 0 <= k < |SentIndices(ss)| ==> Forwarded(ss)[k] == ss[SentIndices(ss)[k]]
  {
    if ss != [] {
      var n := |ss| - 1;
      var prefix := ss[..n];
      ForwardedInOrder(prefix);
      var sent, idx := Forwarded(prefix), SentIndices(prefix);
      if HasPayload(ss[n]) {
        assert Forwarded(ss) == sent + [ss[n]] && SentIndices(ss) == idx + [n];
      } else {
        assert Forwarded(ss) == sent && SentIndices(ss) == idx;
      }
      forall k | 0 <= k < |idx| ensures sent[k] == ss[idx[k]] {
        assert prefix[idx[k]] == ss[idx[k]];
      }
    }
  }

  /** transferRtp sends, in arrival order, the stripped form of exactly the packets
      whose stripping leaves a non-empty window. */
  lemma TransferRtpInArrivalOrder(ds: seq<Datagram>)
    requires AllStrippable(ds)
    ensures var idx := SentIndices(StripAll(ds));
      && |TransferRtp(ds)| == |idx|
      && (forall k :: 0 <= k < |idx| ==> 0 <= idx[k] < |ds| && TransferRtp(ds)[k] == Strip(ds[idx[k]]))
      && (forall k, l :: 0 <= k < l < |idx| ==> idx[k] < idx[l])
      && (forall i :: 0 <= i < |ds| ==> (i in idx <==> HasPayload(Strip(ds[i]))))
  {
    ForwardedInOrder(StripAll(ds));
    SentIndicesComplete(StripAll(ds));
  }

  /** What has been sent is never taken back: reading more packets only appends. */
  lemma {:induction false} ForwardedOnlyAppends(ss: seq<Datagram>, n: int)
    requires 0 <= n <= |ss|
    ensures Forwarded(ss[..n]) <= Forwarded(ss)
  {
    if n < |ss| {
      var m := |ss| - 1;
      assert ss[..m][..n] == ss[..n];
      ForwardedOnlyAppends(ss[..m], n);
    } else {
      assert ss[..n] == ss;
    }
  }

  lemma TransferRtpOnlyAppends(ds: seq<Datagram>, n: int)
    requires AllStrippable(ds) && 0 <= n <= |ds|
    ensures TransferRtp(ds[..n]) <= TransferRtp(ds)
  {
    assert StripAll(ds[..n]) == StripAll(ds)[..n];
    ForwardedOnlyAppends(StripAll(ds), n);
  }

  /** The packets as values. */
  ghost function Snapshots(pkts: seq<Packet>): (ds: seq<Datagram>)
    reads set p | p in pkts, set p | p in pkts :: p.data
    ensures |ds| == |pkts|
    ensures forall k :: 0 <= k < |pkts| ==> ds[k] == pkts[k].Snapshot()
  {
    if pkts == [] then []
    else Snapshots(pkts[..|pkts| - 1]) + [pkts[|pkts| - 1].Snapshot()]
  }

  /** The first i packets have been stripped in place; the others are as read. */
  ghost predicate StrippedUpTo(pkts: seq<Packet>, read: seq<Datagram>, i: int)
    requires AllStrippable(read) && |read| == |pkts|
    reads set p | p in pkts, set p | p in pkts :: p.data
  {
    forall j :: 0 <= j < |pkts| ==> pkts[j].Snapshot() == if j < i then Strip(read[j]) else read[j]
  }

  /** One turn of the receive loop: strip packet i in place. */
  method StripAt(pkts: seq<Packet>, i: int, ghost read: seq<Datagram>) returns (ok: bool)
    requires forall k, l :: 0 <= k < l < |pkts| ==> pkts[k] != pkts[l]
    requires AllStrippable(read) && |read| == |pkts| && 0 <= i < |pkts|
    requires StrippedUpTo(pkts, read, i)
    modifies pkts[i]
    ensures forall j :: 0 <= j < |pkts| ==> pkts[j].data == old(pkts[j].data)
    ensures StrippedUpTo(pkts, read, i + 1)
    ensures ok <==> HasPayload(Strip(read[i]))
  {
    var pkt := pkts[i];
    assert pkt.Snapshot() == read[i];
    ok := pkt.StripRtp();
    forall j | 0 <= j < |pkts|
      ensures pkts[j].Snapshot() == if j < i + 1 then Strip(read[j]) else read[j]
    {
      if j != i {
        assert pkts[j] != pkt;
        assert pkts[j].Snapshot() == old(pkts[j].Snapshot());
      }
    }
  }

  /** The receive loop of transferRtp over packets already read: each is stripped in
      place and sent when StripRtp reports a non-empty window. The packets sent are
      the very objects read, at the sent positions, and dropped packets stay stripped. */
  method RelayRtp(pkts: seq<Packet>) returns (sent: seq<Packet>)
    requires forall i, j :: 0 <= i < j < |pkts| ==> pkts[i] != pkts[j]
    requires AllStrippable(Snapshots(pkts))
    modifies set p | p in pkts
    ensures AllStrippable(old(Snapshots(pkts)))
    ensures Snapshots(sent) == TransferRtp(old(Snapshots(pkts)))
    ensures SentFrom(sent, pkts, SentIndices(StripAll(old(Snapshots(pkts)))))
    ensures forall j :: 0 <= j < |pkts| ==> pkts[j].Snapshot() == Strip(old(Snapshots(pkts))[j])
    ensures forall j :: 0 <= j < |pkts| ==> pkts[j].data == old(pkts[j].data)
  {
    ghost var read := Snapshots(pkts);
    ghost var stripped := StripAll(read);
    sent := [];
    var i := 0;
    while i < |pkts|
      invariant 0 <= i <= |pkts|
      invariant StrippedUpTo(pkts, read, i)
      invariant forall j :: 0 <= j < |pkts| ==> pkts[j].data == old(pkts[j].data)
      invariant SentFrom(sent, pkts, SentIndices(stripped[..i]))
    {
      var ok := StripAt(pkts, i, read);
      SentIndicesStep(stripped, i);
      SentFromStep(sent, pkts, SentIndices(stripped[..i]), i, ok);
      if ok {
        sent := sent + [pkts[i]];
      }
      i := i + 1;
    }
    assert stripped[..i] == stripped;
    RelayedAll(sent, pkts, read);
  }

  /** Once every packet is stripped, the packets sent at the sent positions are,
      as values, what TransferRtp describes. */
  lemma RelayedAll(sent: seq<Packet>, pkts: seq<Packet>, read: seq<Datagram>)
    requires AllStrippable(read) && |read| == |pkts|
    requires StrippedUpTo(pkts, read, |pkts|)
    requires SentFrom(sent, pkts, SentIndices(StripAll(read)))
    ensures Snapshots(sent) == TransferRtp(read)
  {
    var stripped := StripAll(read);
    ForwardedInOrder(stripped);
    forall k | 0 <= k < |sent| ensures Snapshots(sent)[k] == Forwarded(stripped)[k] {
      var j := SentIndices(stripped)[k];
      assert sent[k] == pkts[j];
      assert pkts[j].Snapshot() == stripped[j];
    }
  }

  /** sent lists the packets at the positions idx, in that order. */
  predicate SentFrom(sent: seq<Packet>, pkts: seq<Packet>, idx: seq<int>) {
    && |sent| == |idx|
    && forall k :: 0 <= k < |idx| ==> 0 <= idx[k] < |pkts| && sent[k] == pkts[idx[k]]
  }

  lemma SentFromStep(sent: seq<Packet>, pkts: seq<Packet>, idx: seq<int>, i: int, ok: bool)
    requires SentFrom(sent, pkts, idx) && 0 <= i < |pkts|
    ensures ok ==> SentFrom(sent + [pkts[i]], pkts, idx + [i])
  {
  }

  lemma SentIndicesStep(ss: seq<Datagram>, i: int)
    requires 0 <= i < |ss|
    ensures SentIndices(ss[..i + 1])
            == SentIndices(ss[..i]) + if HasPayload(ss[i]) then [i] else []
  {
    assert ss[..i + 1][..i] == ss[..i];
  }
}
