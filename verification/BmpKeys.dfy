/**
  The correlation key of a BMP peer state change (the per-peer header fields of
  section 4.2 of RFC 7854: peer type, peer distinguisher and peer address).
 */
module BmpKeys {
  import opened Options
  import opened Texts
  import opened Decimals
  import opened Ownership
  import opened CorrelationLedger
  import opened CorrelationRuns

  datatype Peer = Peer(peerType: nat, distinguisher: nat, address: string)

  predicate IsPlain(p: Peer) {
    p.peerType == 0 && p.distinguisher == 0
  }

  function Qualified(p: Peer): string {
    "pt" + Decimal(p.peerType) + ":rd" + Decimal(p.distinguisher) + ":" + p.address
  }

  function SubKey(p: Peer): string {
    if IsPlain(p) then p.address else Qualified(p)
  }

  /** The semantic type and sub-key of a BMP event, given its lower-cased session state. */
  function SemanticKey(state: string, p: Peer): Option<(string, string)> {
    if state == "established" then Some(("bgp_neighbor_up", SubKey(p)))
    else if state == "down" then Some(("bgp_neighbor_down", SubKey(p)))
    else None
  }

  lemma TaggedDecimal(tag: string, m: nat, n: nat)
    requires tag + Decimal(m) == tag + Decimal(n)
    ensures m == n
  {
    assert (tag + Decimal(m))[|tag|..] == Decimal(m) && (tag + Decimal(n))[|tag|..] == Decimal(n);
    DecimalInjective(m, n);
  }

  lemma QualifiedInjective(p: Peer, q: Peer)
    requires Qualified(p) == Qualified(q)
    ensures p == q
  {
    hide Decimal;
    var a, b := "pt" + Decimal(p.peerType), "pt" + Decimal(q.peerType);
    var c, d := "rd" + Decimal(p.distinguisher), "rd" + Decimal(q.distinguisher);
    var x, y := c + [':'] + p.address, d + [':'] + q.address;
    assert Qualified(p) == a + [':'] + x;
    assert Qualified(q) == b + [':'] + y;
    CutUnique(a, b, ':', x, y);
    CutUnique(c, d, ':', p.address, q.address);
    TaggedDecimal("pt", p.peerType, q.peerType);
    TaggedDecimal("rd", p.distinguisher, q.distinguisher);
  }

  /** Exactly when two peers share a sub-key: they are the same, or one is plain and spells the other out. */
  lemma SubKeyCollides(p: Peer, q: Peer)
    ensures SubKey(p) == SubKey(q) <==>
            || p == q
            || (IsPlain(p) && !IsPlain(q) && p.address == Qualified(q))
            || (IsPlain(q) && !IsPlain(p) && q.address == Qualified(p))
  {
    if !IsPlain(p) && !IsPlain(q) && Qualified(p) == Qualified(q) {
      QualifiedInjective(p, q);
    }
  }

  predicate Ordinary(p: Peer) {
    IsPlain(p) ==> !("pt" <= p.address)
  }

  /** The sub-key determines the peer whenever plain addresses do not begin with "pt". */
  lemma SubKeyInjective(p: Peer, q: Peer)
    requires Ordinary(p) && Ordinary(q) && SubKey(p) == SubKey(q)
    ensures p == q
  {
    SubKeyCollides(p, q);
    assert Qualified(p)[..2] == "pt" && Qualified(q)[..2] == "pt";
  }

  /** A plain address that spells out a qualified peer does collide with it. */
  lemma PrefixedAddressCollides()
    ensures SubKey(Peer(0, 0, "pt1:rd7:10.0.0.1")) == SubKey(Peer(1, 7, "10.0.0.1"))
  {
    assert Decimal(1) == "1" && Decimal(7) == "7";
    assert Qualified(Peer(1, 7, "10.0.0.1")) == "pt1:rd7:10.0.0.1";
  }

  /** The signal reports that BMP peer `p` went to session state `state`. */
  predicate Reports(sig: Signal, state: string, p: Peer) {
    SemanticKey(state, p) == Some((sig.key.semantic, sig.key.sub))
  }

  /** Only two session states are reported, each under a type of its own, and both under the peer's sub-key. */
  lemma ReportsIff(sig: Signal, state: string, p: Peer)
    ensures Reports(sig, state, p) <==>
            && sig.key.sub == SubKey(p)
            && (state == "established" || state == "down")
            && sig.key.semantic == if state == "down" then "bgp_neighbor_down" else "bgp_neighbor_up"
  {
  }

  /**
    Over every run, the BMP reports of one slot are of one peer with an address and of one
    direction: what a slot correlates is one session going up, or one going down.
   */
  lemma DifferentPeersNeverShareASlot(
    window: int, t: int, es: seq<Event>, i: nat, j: nat, p: Peer, q: Peer, up: string, down: string)
    requires Inv(window, Init(t)) && ValidRun(window, Init(t), es)
    requires var s := Run(window, Init(t), es);
             && |s.owner| == |s.log| && i < |s.log| && j < |s.log|
             && Reports(s.log[i], up, p) && Reports(s.log[j], down, q)
    requires SubKey(p) != "" && SubKey(q) != "" && Ordinary(p) && Ordinary(q) && (p != q || up != down)
    ensures var s := Run(window, Init(t), es); s.owner[i] != s.owner[j]
  {
    hide SubKey, Ordinary, Run, ValidRun;
    RunInv(window, Init(t), es);
    var s := Run(window, Init(t), es);
    assert Fits(s.log[i].key, s.store[s.owner[i]].key);
    assert Fits(s.log[j].key, s.store[s.owner[j]].key);
    if s.owner[i] == s.owner[j] { SubKeyInjective(p, q); }
  }
}
