/** Round-robin striping over bonded paths that all stay usable. */
module BondStripe {

  /** The index of the path in use and the sixteen-bit counter of packets sent on it. */
  datatype Stripe = Stripe(idx: nat, sent: nat)

  function Wrap(i: nat, n: nat): nat { if i < n then i else i - n }

  /** One send: the path used is the one in the new state. The switching send is not counted. */
  function Send(s: Stripe, perLink: nat, n: nat): Stripe {
    if s.sent < perLink then Stripe(s.idx, (s.sent + 1) % 65536) else Stripe(Wrap(s.idx + 1, n), 0)
  }

  function After(s: Stripe, perLink: nat, n: nat, sends: nat): Stripe
    decreases sends
  {
    if sends == 0 then s else After(Send(s, perLink, n), perLink, n, sends - 1)
  }

  /** How many of the next sends use bonded path j. */
  function Uses(s: Stripe, perLink: nat, n: nat, sends: nat, j: nat): nat
    decreases sends
  {
    if sends == 0 then 0
    else
      var t := Send(s, perLink, n);
      (if t.idx == j then 1 else 0) + Uses(t, perLink, n, sends - 1, j)
  }

  lemma {:induction false} Together(s: Stripe, perLink: nat, n: nat, a: nat, b: nat, j: nat)
    ensures After(s, perLink, n, a + b) == After(After(s, perLink, n, a), perLink, n, b)
    ensures Uses(s, perLink, n, a + b, j) == Uses(s, perLink, n, a, j) + Uses(After(s, perLink, n, a), perLink, n, b, j)
    decreases a
  {
    if a > 0 { Together(Send(s, perLink, n), perLink, n, a - 1, b, j); }
  }

  /** While the counter is below its limit, sends stay on the path. */
  lemma {:induction false} Stay(s: Stripe, perLink: nat, n: nat, m: nat, j: nat)
    requires s.sent + m <= perLink <= 65535
    ensures After(s, perLink, n, m) == Stripe(s.idx, s.sent + m)
    ensures Uses(s, perLink, n, m, j) == if j == s.idx then m else 0
    decreases m
  {
    if m > 0 { Stay(Send(s, perLink, n), perLink, n, m - 1, j); }
  }

  /** A switching send and what follows on the next path. */
  lemma Switch(s: Stripe, perLink: nat, n: nat, m: nat, j: nat)
    requires s.sent == perLink <= 65535 && m <= perLink
    ensures After(s, perLink, n, m + 1) == Stripe(Wrap(s.idx + 1, n), m)
    ensures Uses(s, perLink, n, m + 1, j) == if j == Wrap(s.idx + 1, n) then m + 1 else 0
  {
    Stay(Send(s, perLink, n), perLink, n, m, j);
  }

  /** How many switches lead from path idx to path j. */
  function Steps(idx: nat, j: nat, n: nat): nat
    requires idx < n && j < n
  {
    if j > idx then j - idx else j + n - idx
  }

  /** The number of sends in m stripes. */
  function Stripes(m: nat, perLink: nat): nat { m * (perLink + 1) }

  lemma OneMore(m: nat, perLink: nat)
    ensures Stripes(0, perLink) == 0
    ensures m > 0 ==> Stripes(m, perLink) == Stripes(m - 1, perLink) + (perLink + 1)
  {
  }

  lemma {:induction false} Blocks(s: Stripe, perLink: nat, n: nat, m: nat, j: nat)
    requires s.sent == perLink <= 65535 && s.idx < n && j < n && m <= n
    ensures After(s, perLink, n, Stripes(m, perLink)) == Stripe(Wrap(s.idx + m, n), perLink)
    ensures Uses(s, perLink, n, Stripes(m, perLink), j) == if Steps(s.idx, j, n) <= m then perLink + 1 else 0
  {
    hide Stripes;
    OneMore(m, perLink);
    if m > 0 {
      Blocks(s, perLink, n, m - 1, j);
      Together(s, perLink, n, Stripes(m - 1, perLink), perLink + 1, j);
      Switch(After(s, perLink, n, Stripes(m - 1, perLink)), perLink, n, perLink, j);
    }
  }

  /** A window of n * (packetsPerLink + 1) sends uses path j packetsPerLink + 1 times. */
  predicate Fair(s: Stripe, perLink: nat, n: nat, j: nat) { Uses(s, perLink, n, Stripes(n, perLink), j) == perLink + 1 }

  /** Every window, wherever it starts, is fair to each of the n bonded paths. */
  lemma WindowIsFair(s: Stripe, perLink: nat, n: nat, j: nat)
    requires s.idx < n && perLink <= 65535 && j < n
    ensures Fair(s, perLink, n, j)
  {
    if s.sent <= perLink {
      FairInRange(s, perLink, n, j);
    } else {
      OneMore(n, perLink);
      FairInRange(Stripe(s.idx, perLink), perLink, n, j);
      Above(s, perLink, n, Stripes(n, perLink), j);
    }
  }

  /** A counter above its limit switches like one at its limit. */
  lemma Above(s: Stripe, perLink: nat, n: nat, sends: nat, j: nat)
    requires s.sent > perLink && sends > 0
    ensures Uses(s, perLink, n, sends, j) == Uses(Stripe(s.idx, perLink), perLink, n, sends, j)
  {
    assert Send(s, perLink, n) == Send(Stripe(s.idx, perLink), perLink, n);
  }

  lemma FairInRange(s: Stripe, perLink: nat, n: nat, j: nat)
    requires s.idx < n && s.sent <= perLink <= 65535 && j < n
    ensures Fair(s, perLink, n, j)
  {
    hide Stripes, Uses, After, Send, Wrap, Steps;
    var rest, blocks := perLink - s.sent, Stripes(n - 1, perLink);
    OneMore(n, perLink);
    Together(s, perLink, n, rest, blocks + s.sent + 1, j);
    Stay(s, perLink, n, rest, j);
    var t := Stripe(s.idx, perLink);
    Together(t, perLink, n, blocks, s.sent + 1, j);
    Blocks(t, perLink, n, n - 1, j);
    Switch(Stripe(Wrap(s.idx + n - 1, n), perLink), perLink, n, s.sent, j);
    Around(s.idx, j, n);
  }

  lemma Around(idx: nat, j: nat, n: nat)
    requires idx < n && j < n
    ensures Wrap(Wrap(idx + n - 1, n) + 1, n) == idx && (Steps(idx, j, n) <= n - 1 <==> j != idx)
  {
  }

  /** The index stays in range in every state that sends lead to. */
  lemma {:induction false} IndexInRange(s: Stripe, perLink: nat, n: nat, sends: nat)
    requires s.idx < n
    ensures After(s, perLink, n, sends).idx < n
    decreases sends
  {
    if sends > 0 { IndexInRange(Send(s, perLink, n), perLink, n, sends - 1); }
  }

  /** With a limit that the sixteen-bit counter cannot reach, no send ever switches paths. */
  lemma {:induction false} NeverSwitches(s: Stripe, perLink: nat, n: nat, sends: nat)
    requires s.sent < 65536 <= perLink
    ensures After(s, perLink, n, sends).idx == s.idx && Uses(s, perLink, n, sends, s.idx) == sends
    decreases sends
  {
    if sends > 0 { NeverSwitches(Send(s, perLink, n), perLink, n, sends - 1); }
  }

  /** Fairness over a window holds exactly when the counter can reach its limit or there is only one path. */
  lemma FairExactly(s: Stripe, perLink: nat, n: nat)
    requires s.idx < n && s.sent < 65536
    ensures (forall j: nat | j < n :: Fair(s, perLink, n, j)) <==> perLink <= 65535 || n == 1
  {
    var window := Stripes(n, perLink);
    if perLink <= 65535 {
      forall j: nat | j < n
        ensures Fair(s, perLink, n, j)
      {
        WindowIsFair(s, perLink, n, j);
      }
    } else {
      NeverSwitches(s, perLink, n, window);
      if n > 1 {
        Longer(n, perLink + 1);
        assert !Fair(s, perLink, n, s.idx);
      }
    }
  }

  lemma Longer(n: nat, p: nat)
    requires n > 1 && p > 0
    ensures n * p > p
  {
  }
}
