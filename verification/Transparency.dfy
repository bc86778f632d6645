/** The cache is invisible: with a deterministic backend, clients get what a broker without a cache would say. */
module Transparency {
  import opened Manifests
  import opened Broker
  import opened Effects
  import opened Provenance
  import opened Allowlist

  /** A response without its TTL. */
  datatype Answered = AnsweredValue(value: string) | AnsweredError(code: ErrorCode)

  function Plain(r: Response): Answered {
    match r
    case Value(v, _) => AnsweredValue(v)
    case Error(code) => AnsweredError(code)
  }

  /** What a broker with no cache answers, given a manifest snapshot and a backend that always says `f(n)`. */
  function CacheFree(snap: Manifest, configured: bool, f: string -> Reply, n: string): Answered {
    if n !in snap.secrets then AnsweredError(Denied)
    else if !configured then AnsweredError(BackendError)
    else match f(n)
         case Found(v) => AnsweredValue(v)
         case Absent => AnsweredError(SecretNotFound)
         case Failed => AnsweredError(BackendError)
  }

  /** Every backend answer in the run is `f` of the name asked. */
  ghost predicate AnswersAre(ss: seq<State>, sts: seq<Step>, f: string -> Reply) {
    forall k :: 0 <= k < |sts| < |ss| && sts[k].Answer? && sts[k].get in ss[k].gets ==>
      sts[k].reply == f(ss[k].gets[sts[k].get].name)
  }

  /** Whether a backend is configured never changes; rotation only swaps sessions. */
  lemma {:induction false} BackendConfigured(ss: seq<State>, sts: seq<Step>, i: nat)
    requires Run(ss, sts) && i < |ss|
    ensures ss[i].backend.Some? == ss[0].backend.Some?
  {
    if i > 0 {
      BackendConfigured(ss, sts, i - 1);
      assert StepAt(ss, sts, i - 1);
    }
  }

  lemma FetchedIsAnswer(ss: seq<State>, sts: seq<Step>, f: string -> Reply, i: nat,
                        h: nat, inc: nat, n: string, v: string)
    requires Run(ss, sts) && AnswersAre(ss, sts, f) && FetchedBy(ss, sts, i, h, inc, n, v)
    ensures f(n) == Found(v) && ss[0].backend.Some?
  {
    var load: nat, answer: nat :| Fetches(ss, sts, load, answer, h, inc, n, v) && answer < i;
    GetStable(ss, sts, h, load, answer);
    BackendConfigured(ss, sts, load);
  }

  lemma BackendVerdict(ss: seq<State>, sts: seq<Step>, f: string -> Reply, d: nat)
    requires Run(ss, sts) && AnswersAre(ss, sts, f) && d < |sts| && sts[d].Answer?
    ensures sts[d].get in ss[d].gets && sts[d].reply == f(ss[d].gets[sts[d].get].name)
    ensures ss[0].backend.Some?
  {
    EnabledAt(ss, sts, d);
    var load := SessionOrigin(ss, sts, d, sts[d].get);
    BackendConfigured(ss, sts, load);
  }

  /** Cache transparency: in every interleaving of gets, expiries, evictions, reloads and re-registrations,
      a finished get answers exactly what a cache-free broker answers for the manifest it snapshotted. */
  lemma CacheTransparency(ss: seq<State>, sts: seq<Step>, f: string -> Reply, i: nat, g: nat)
    requires Run(ss, sts) && AnswersAre(ss, sts, f)
    requires i < |ss| && g in ss[i].gets && ss[i].gets[g].pc.Done?
    ensures Plain(ss[i].gets[g].pc.verdict.response)
         == CacheFree(ss[i].gets[g].snap, ss[0].backend.Some?, f, ss[i].gets[g].name)
  {
    var d := VerdictOrigin(ss, sts, i, g);
    GetStable(ss, sts, g, d, i);
    SnapshotDecides(ss, sts, i, g);
    var call, r := ss[i].gets[g], ss[i].gets[g].pc.verdict.response;
    if r.Value? {
      ValueIsAnswer(ss, sts, f, i, g);
    } else if sts[d].LoadSession? {
      BackendConfigured(ss, sts, d);
    } else if sts[d].Answer? {
      BackendVerdict(ss, sts, f, d);
    }
  }

  lemma ValueIsAnswer(ss: seq<State>, sts: seq<Step>, f: string -> Reply, i: nat, g: nat)
    requires Run(ss, sts) && AnswersAre(ss, sts, f)
    requires i < |ss| && g in ss[i].gets && ss[i].gets[g].pc.Done? && ss[i].gets[g].pc.verdict.response.Value?
    ensures f(ss[i].gets[g].name) == Found(ss[i].gets[g].pc.verdict.response.value) && ss[0].backend.Some?
  {
    var r := ss[i].gets[g].pc.verdict.response;
    var store, decided := ValueProvenance(ss, sts, i, g, r.value, r.ttlSeconds);
    GetStable(ss, sts, g, decided, i);
    FetchedIsAnswer(ss, sts, f, i, sts[store].get, ss[i].gets[g].inc, ss[i].gets[g].name, r.value);
  }
}
