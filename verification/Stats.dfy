/**
 sign_stats.c: the record a signing session fills in. `r` is the caller-owned structure behind
 the thread-local pointer; `cur` in the signatures below is that pointer, null between sessions.
 */
module Stats {

  /** BITCOIN_PQC_SIGN_WOTSC_LAYERS. */
  const LAYERS := 5

  /** `cap_exceeded` is a bit set; its two bits are kept as booleans. */
  datatype Rec = Rec(forscAttempts: nat, forscMax: nat, wotscAttempts: seq<nat>, layerCount: nat, wotscMax: nat,
                     maxObserved: nat, forscCapped: bool, wotscCapped: bool)
  {
    function RecordForsc(attempts: nat): Rec { this.(forscAttempts := attempts) }

    function RecordForscCap(): Rec { this.(forscCapped := true) }

    function RecordWotsc(attempts: nat): Rec {
      var r := this.(layerCount := layerCount + 1, maxObserved := if attempts > maxObserved then attempts
        else maxObserved);
      if layerCount < LAYERS && layerCount < |wotscAttempts|
        then r.(wotscAttempts := wotscAttempts[layerCount := attempts]) else r
    }

    function RecordWotscCap(): Rec { this.(wotscCapped := true) }
  }

  /** The record `bitcoin_pqc_sign_stats_begin` leaves behind. */
  function Fresh(forscCap: nat, wotscCap: nat): Rec {
    Rec(0, forscCap, [0, 0, 0, 0, 0], 0, wotscCap + 1, 0, false, false)
  }

  class SignStats {
    var r: Rec

    constructor ()
    {
      r := Rec(0, 0, [], 0, 0, 0, false, false);
    }
  }

  /** `layers` are the attempts of successive WOTS+C searches: what recording them one after the other leaves. */
  ghost function RecordAll(r: Rec, layers: seq<nat>): Rec {
    if layers == [] then r else RecordAll(r, layers[..|layers| - 1]).RecordWotsc(layers[|layers| - 1])
  }

  ghost predicate IsMax(m: nat, s: seq<nat>) {
    (forall x | x in s :: x <= m) && (s == [] ==> m == 0) && (s != [] ==> m in s)
  }

  /** After a run from a fresh record the fields are exactly the attempts, their number and their maximum. */
  lemma {:induction false} RecordAllExact(forscCap: nat, wotscCap: nat, layers: seq<nat>)
    requires |layers| <= LAYERS && forall x | x in layers :: x >= 1
    ensures var r := RecordAll(Fresh(forscCap, wotscCap), layers);
            && r.layerCount == |layers| && |r.wotscAttempts| == LAYERS
            && r.wotscAttempts[..|layers|] == layers
            && IsMax(r.maxObserved, layers)
            && !r.forscCapped && !r.wotscCapped && r.forscAttempts == 0
            && r.forscMax == forscCap && r.wotscMax == wotscCap + 1
  {
    if layers != [] {
      var n := |layers| - 1;
      var front, last := layers[..n], layers[n];
      assert layers == front + [last];
      assert forall x | x in front :: x in layers;
      RecordAllExact(forscCap, wotscCap, front);
    }
  }
}
