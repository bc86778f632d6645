/** Only allowlisted names reach the cache, the backend or a client, under any interleaving with reloads. */
module Allowlist {
  import opened Common
  import opened Broker
  import opened Effects
  import opened Provenance

  /** The get has been allowed: it is past the check and was not denied. */
  predicate PastCheck(pc: Pc) {
    !pc.Snapped? && VerdictOf(pc) != Some(DENY)
  }

  lemma {:induction false} BeginOrigin(ss: seq<State>, sts: seq<Step>, i: nat, g: nat) returns (b: nat)
    requires Run(ss, sts) && i < |ss| && g in ss[i].gets
    ensures b < i && sts[b] == Begin(g, ss[i].gets[g].inc, ss[i].gets[g].name)
    ensures g !in ss[b].gets && ss[i].gets[g].inc in ss[b].projects
    ensures ss[i].gets[g].snap == ss[b].projects[ss[i].gets[g].inc].manifest
  {
    assert i > 0;
    GetAt(ss, sts, i - 1, g);
    if g in ss[i - 1].gets {
      b := BeginOrigin(ss, sts, i - 1, g);
    } else {
      b := i - 1;
    }
  }

  /** The single snapshot decides: a get is past the check only if its snapshot lists the name,
      and denied only if it does not. */
  lemma {:induction false} SnapshotDecides(ss: seq<State>, sts: seq<Step>, i: nat, g: nat)
    requires Run(ss, sts) && i < |ss| && g in ss[i].gets
    ensures PastCheck(ss[i].gets[g].pc) ==> ss[i].gets[g].name in ss[i].gets[g].snap.secrets
    ensures VerdictOf(ss[i].gets[g].pc) == Some(DENY) ==> ss[i].gets[g].name !in ss[i].gets[g].snap.secrets
  {
    assert i > 0;
    GetAt(ss, sts, i - 1, g);
    if g in ss[i - 1].gets {
      SnapshotDecides(ss, sts, i - 1, g);
    }
  }

  /** Every cache probe, session load, backend answer, cache insertion and value response belongs to a
      get whose one manifest snapshot, taken from its own incarnation, contained the name. */
  lemma EveryAccessWasAllowed(ss: seq<State>, sts: seq<Step>, i: nat) returns (b: nat)
    requires Run(ss, sts) && i < |sts|
    requires sts[i].Probe? || sts[i].LoadSession? || sts[i].Answer? || sts[i].Store?
             || (sts[i].Respond? && sts[i].get in ss[i].gets && ss[i].gets[sts[i].get].pc.Responding?
                 && ss[i].gets[sts[i].get].pc.verdict.response.Value?)
    ensures sts[i].get in ss[i].gets
    ensures var call := ss[i].gets[sts[i].get];
            && b < i && sts[b] == Begin(sts[i].get, call.inc, call.name)
            && call.inc in ss[b].projects && call.name in ss[b].projects[call.inc].manifest.secrets
  {
    EnabledAt(ss, sts, i);
    b := BeginOrigin(ss, sts, i, sts[i].get);
    SnapshotDecides(ss, sts, i, sts[i].get);
  }

  /** A cached name was on the allowlist of the incarnation at some earlier moment. */
  lemma CacheWithinAllowlists(ss: seq<State>, sts: seq<Step>, i: nat, inc: nat, n: string) returns (b: nat)
    requires Run(ss, sts) && i < |ss| && inc in ss[i].projects && n in ss[i].projects[inc].cache.entries
    ensures b < i && inc in ss[b].projects && n in ss[b].projects[inc].manifest.secrets
  {
    var store := EntryOrigin(ss, sts, i, inc, n);
    b := EveryAccessWasAllowed(ss, sts, store);
  }

  /** A finished get is denied exactly when the manifest it snapshotted did not list the name. */
  lemma DeniedIffNotListed(ss: seq<State>, sts: seq<Step>, b: nat, i: nat, g: nat)
    requires Run(ss, sts) && b < i < |ss| && sts[b].Begin? && sts[b].get == g
    requires g in ss[i].gets && ss[i].gets[g].pc.Done?
    ensures sts[b].inc in ss[b].projects
    ensures ss[i].gets[g].pc.verdict.response == Error(Denied)
       <==> sts[b].name !in ss[b].projects[sts[b].inc].manifest.secrets
  {
    var b' := BeginOrigin(ss, sts, i, g);
    BeginOnce(ss, sts, b, b', g);
    SnapshotDecides(ss, sts, i, g);
    var d := VerdictOrigin(ss, sts, i, g);
  }

  lemma BeginOnce(ss: seq<State>, sts: seq<Step>, b: nat, c: nat, g: nat)
    requires Run(ss, sts) && b < |sts| && c < |sts|
    requires sts[b].Begin? && sts[c].Begin? && sts[b].get == g == sts[c].get
    ensures b == c
  {
    BeginAt(ss, sts, b);
    BeginAt(ss, sts, c);
    if b < c {
      GetStable(ss, sts, g, b + 1, c);
    } else if c < b {
      GetStable(ss, sts, g, c + 1, b);
    }
  }

  /** Step `k` installs, in incarnation `inc`, a manifest that lists `n`. */
  ghost predicate Restores(ss: seq<State>, sts: seq<Step>, k: nat, inc: nat, n: string)
    requires k < |sts| < |ss|
  {
    && sts[k].ReloadStore? && sts[k].op in ss[k].reloads && ss[k].reloads[sts[k].op].Configured?
    && ss[k].reloads[sts[k].op].inc == inc && n in ss[k].reloads[sts[k].op].manifest.secrets
  }

  lemma {:induction false} StaysRemoved(ss: seq<State>, sts: seq<Step>, r: nat, b: nat, inc: nat, n: string)
    requires Run(ss, sts) && r <= b < |ss| && inc in ss[r].projects
    requires n !in ss[r].projects[inc].manifest.secrets
    requires forall k :: r <= k < b ==> !Restores(ss, sts, k, inc, n)
    ensures inc in ss[b].projects && n !in ss[b].projects[inc].manifest.secrets
    decreases b
  {
    if r < b {
      StaysRemoved(ss, sts, r, b - 1, inc, n);
      ManifestAt(ss, sts, b - 1, inc);
      assert !Restores(ss, sts, b - 1, inc, n);
    }
  }

  /** Once a name is off the allowlist, every get that starts before a reload restores it is denied and
      touches neither cache nor backend, even while the cache still holds the name. */
  lemma RemovedNameIsDenied(ss: seq<State>, sts: seq<Step>, r: nat, b: nat, i: nat, g: nat)
    requires Run(ss, sts) && r <= b < i < |ss| && sts[b].Begin? && sts[b].get == g
    requires sts[b].inc in ss[r].projects && sts[b].name !in ss[r].projects[sts[b].inc].manifest.secrets
    requires forall k :: r <= k < b ==> !Restores(ss, sts, k, sts[b].inc, sts[b].name)
    ensures g in ss[i].gets && (ss[i].gets[g].pc == Snapped || VerdictOf(ss[i].gets[g].pc) == Some(DENY))
    ensures i < |sts| && StepsGet(sts[i], g) ==> sts[i].Check? || sts[i].Emit? || sts[i].Respond?
  {
    StaysRemoved(ss, sts, r, b, sts[b].inc, sts[b].name);
    BeginAt(ss, sts, b);
    GetStable(ss, sts, g, b + 1, i);
    var b' := BeginOrigin(ss, sts, i, g);
    BeginOnce(ss, sts, b, b', g);
    SnapshotDecides(ss, sts, i, g);
    if i < |sts| { EnabledAt(ss, sts, i); }
  }
}
