/** Validation of SML elastic-weight plans (`elastic-adapters/src/sml.rs`). */
module Sml {
  import opened Outcomes
  import opened Lists

  const MAX_U64: nat := 0xffff_ffff_ffff_ffff
  const MAX_U128: nat := 0xffff_ffff_ffff_ffff_ffff_ffff_ffff_ffff
  type U64 = n: int | 0 <= n <= 0xffff_ffff_ffff_ffff

  const CONTRACT: string := "sml.elastic-weight-plan@1.0.0"
  const SOURCE_COMMIT: string := "3e04239862c9d14cb369227f4abbe84b5c7e1d5e"

  datatype Precision = Boolean | Ternary | Residual4 {
    function BitsPerParameter(): nat {
      match this
      case Boolean => 1
      case Ternary => 2
      case Residual4 => 4
    }
  }

  datatype Residency = Disk | Ram | Vram

  datatype Transition = Transition(
    pageId: nat, parameters: U64, fromVersion: U64, toVersion: U64,
    fromPrecision: Precision, toPrecision: Precision,
    fromResidency: Residency, toResidency: Residency,
    fromActive: bool, toActive: bool, targetPayloadBytes: U64)
  {
    predicate ChangesPrecision() {
      fromPrecision != toPrecision
    }

    /** Semantic bits of the page at its target precision. */
    function StorageBits(): (bits: nat)
      ensures bits == parameters * toPrecision.BitsPerParameter()
    {
      match toPrecision
      case Boolean => parameters
      case Ternary => 2 * parameters
      case Residual4 => 4 * parameters
    }
  }

  /** The seven aggregates of a plan. */
  datatype Totals = Totals(ramBytes: nat, vramBytes: nat, activeParameters: nat, activeStorageBits: nat,
                           bytesMovedToRam: nat, bytesMovedToVram: nat, precisionChanges: nat) {

    function Plus(t: Totals): Totals {
      Totals(ramBytes + t.ramBytes, vramBytes + t.vramBytes,
             activeParameters + t.activeParameters, activeStorageBits + t.activeStorageBits,
             bytesMovedToRam + t.bytesMovedToRam, bytesMovedToVram + t.bytesMovedToVram,
             precisionChanges + t.precisionChanges)
    }

    /** Every aggregate fits its machine integer. */
    predicate Fits() {
      && ramBytes <= MAX_U64 && vramBytes <= MAX_U64 && activeParameters <= MAX_U64 && activeStorageBits <= MAX_U128
      && bytesMovedToRam <= MAX_U64 && bytesMovedToVram <= MAX_U64 && precisionChanges <= MAX_U64
    }
  }

  const ZERO := Totals(0, 0, 0, 0, 0, 0, 0)

  /** The aggregates an envelope can carry. */
  type MachineTotals = t: Totals | t.Fits() witness ZERO

  datatype Envelope = Envelope(
    contract: string, sourceCommit: string, ramLimitBytes: U64, vramLimitBytes: U64, maxActiveParameters: U64,
    transitions: seq<Transition>, declared: MachineTotals)

  datatype Field =
    | RamBytes | VramBytes | ActiveParameters | ActiveStorageBits
    | BytesMovedToRam | BytesMovedToVram | PrecisionChanges

  datatype SmlError =
    | Contract(actual: string)
    | SourceCommit(actual: string)
    | ZeroParameters(page: nat)
    | DuplicatePage(page: nat)
    | ActivePageOnDisk(page: nat)
    | PayloadBytes(page: nat, expected: nat, found: nat)
    | RepresentationVersionOverflow(page: nat)
    | RepresentationVersion(page: nat, expected: nat, found: nat)
    | RamBudget(bytes: nat, maximum: nat)
    | VramBudget(bytes: nat, maximum: nat)
    | ActiveParameterBudget(parameters: nat, maximum: nat)
    | Accounting(field: Field, expected: nat, found: nat)
    | ArithmeticOverflow

  // ----- what an acceptable plan is -----

  /** The fewest bytes that hold `bits` bits. */
  predicate IsByteCount(bytes: nat, bits: nat) {
    bits <= 8 * bytes < bits + 8
  }

  /** What one page must satisfy on its own. */
  predicate PageRules(t: Transition) {
    && t.parameters > 0
    && IsByteCount(t.targetPayloadBytes, t.StorageBits())
    && t.toVersion == t.fromVersion + (if t.ChangesPrecision() then 1 else 0)
    && (t.toActive ==> t.toResidency != Disk)
  }

  predicate DistinctPages(ts: seq<Transition>) {
    forall i, j :: 0 <= i < j < |ts| ==> ts[i].pageId != ts[j].pageId
  }

  /** What one page adds to each aggregate. */
  function Contribution(t: Transition): Totals {
    var onRam := if t.toResidency == Ram then t.targetPayloadBytes else 0;
    var onVram := if t.toResidency == Vram then t.targetPayloadBytes else 0;
    var moved := t.fromResidency != t.toResidency;
    Totals(onRam, onVram, if t.toActive then t.parameters else 0, if t.toActive then t.StorageBits() else 0,
           if moved then onRam else 0, if moved then onVram else 0, if t.ChangesPrecision() then 1 else 0)
  }

  /** The aggregates as unbounded sums. */
  function Total(ts: seq<Transition>): Totals {
    if ts == [] then ZERO else Total(ts[..|ts| - 1]).Plus(Contribution(ts[|ts| - 1]))
  }

  predicate WithinCeilings(e: Envelope, totals: Totals) {
    totals.ramBytes <= e.ramLimitBytes && totals.vramBytes <= e.vramLimitBytes
      && totals.activeParameters <= e.maxActiveParameters
  }

  predicate Acceptable(e: Envelope) {
    && e.contract == CONTRACT && e.sourceCommit == SOURCE_COMMIT
    && (forall t <- e.transitions :: PageRules(t))
    && DistinctPages(e.transitions)
    && e.declared == Total(e.transitions)
    && WithinCeilings(e, e.declared)
  }

  // ----- the checks -----

  /** `payload_bytes`: on a `u64` parameter count neither of its overflow checks can fail. */
  function PayloadSize(t: Transition): (bytes: nat)
    ensures IsByteCount(bytes, t.StorageBits())
    ensures t.StorageBits() <= MAX_U128 && bytes <= MAX_U64
  {
    (t.StorageBits() + 7) / 8
  }

  function CheckedAdd(left: nat, right: nat): Result<nat, SmlError> {
    if left + right > MAX_U64 then Failure(ArithmeticOverflow) else Success(left + right)
  }

  /** The version a transition must end at. */
  function ExpectedVersion(t: Transition): Result<nat, SmlError> {
    if !t.ChangesPrecision() then Success(t.fromVersion)
    else if t.fromVersion + 1 > MAX_U64 then Failure(RepresentationVersionOverflow(t.pageId))
    else Success(t.fromVersion + 1)
  }

  /** The per-page checks, in order; `seen` holds the earlier page ids. */
  function CheckPage(t: Transition, seen: set<nat>): (r: Result<(), SmlError>)
    ensures r.Success? <==> PageRules(t) && t.pageId !in seen
  {
    if t.parameters == 0 then Failure(ZeroParameters(t.pageId))
    else if t.pageId in seen then Failure(DuplicatePage(t.pageId))
    else
      var payload := PayloadSize(t);
      if t.targetPayloadBytes != payload then Failure(PayloadBytes(t.pageId, payload, t.targetPayloadBytes))
      else
        var version :- ExpectedVersion(t);
        if t.toVersion != version then Failure(RepresentationVersion(t.pageId, version, t.toVersion))
        else if t.toActive && t.toResidency == Disk then Failure(ActivePageOnDisk(t.pageId))
        else Success(())
  }

  /** The checked accumulation of one page. */
  function Accumulate(totals: Totals, t: Transition): (r: Result<Totals, SmlError>)
    requires totals.Fits()
    ensures r == if totals.Plus(Contribution(t)).Fits() then Success(totals.Plus(Contribution(t)))
                 else Failure(ArithmeticOverflow)
  {
    var ram :-
      if t.toResidency == Ram then CheckedAdd(totals.ramBytes, t.targetPayloadBytes)
      else Success(totals.ramBytes);
    var vram :-
      if t.toResidency == Vram then CheckedAdd(totals.vramBytes, t.targetPayloadBytes)
      else Success(totals.vramBytes);
    var parameters :-
      if t.toActive then CheckedAdd(totals.activeParameters, t.parameters)
      else Success(totals.activeParameters);
    var bits := totals.activeStorageBits + if t.toActive then t.StorageBits() else 0;
    if bits > MAX_U128 then Failure(ArithmeticOverflow)
    else
      var changes :-
        if t.ChangesPrecision() then CheckedAdd(totals.precisionChanges, 1)
        else Success(totals.precisionChanges);
      var moved := t.fromResidency != t.toResidency;
      var toRam :-
        if moved && t.toResidency == Ram then CheckedAdd(totals.bytesMovedToRam, t.targetPayloadBytes)
        else Success(totals.bytesMovedToRam);
      var toVram :-
        if moved && t.toResidency == Vram then CheckedAdd(totals.bytesMovedToVram, t.targetPayloadBytes)
        else Success(totals.bytesMovedToVram);
      Success(Totals(ram, vram, parameters, bits, toRam, toVram, changes))
  }

  /** `validate_field`. */
  function CheckField(field: Field, expected: nat, found: nat): Result<(), SmlError> {
    if expected != found then Failure(Accounting(field, expected, found)) else Success(())
  }

  /** The ceilings, then the seven comparisons. */
  function CheckTotals(e: Envelope, totals: Totals): (r: Result<(), SmlError>)
    ensures r.Success? <==> WithinCeilings(e, totals) && e.declared == totals
  {
    if totals.ramBytes > e.ramLimitBytes then Failure(RamBudget(totals.ramBytes, e.ramLimitBytes))
    else if totals.vramBytes > e.vramLimitBytes then Failure(VramBudget(totals.vramBytes, e.vramLimitBytes))
    else if totals.activeParameters > e.maxActiveParameters then
      Failure(ActiveParameterBudget(totals.activeParameters, e.maxActiveParameters))
    else
      var _ :- CheckField(RamBytes, totals.ramBytes, e.declared.ramBytes);
      var _ :- CheckField(VramBytes, totals.vramBytes, e.declared.vramBytes);
      var _ :- CheckField(ActiveParameters, totals.activeParameters, e.declared.activeParameters);
      var _ :- CheckField(ActiveStorageBits, totals.activeStorageBits, e.declared.activeStorageBits);
      var _ :- CheckField(BytesMovedToRam, totals.bytesMovedToRam, e.declared.bytesMovedToRam);
      var _ :- CheckField(BytesMovedToVram, totals.bytesMovedToVram, e.declared.bytesMovedToVram);
      CheckField(PrecisionChanges, totals.precisionChanges, e.declared.precisionChanges)
  }

  function PageIds(ts: seq<Transition>): set<nat> {
    set t <- ts :: t.pageId
  }

  /** Every page passed its checks and no sum overflowed. */
  predicate Clean(ts: seq<Transition>) {
    (forall t <- ts :: PageRules(t)) && DistinctPages(ts) && Total(ts).Fits()
  }

  /** The first failing check in the order of the program. */
  ghost predicate Explains(e: Envelope, error: SmlError) {
    if e.contract != CONTRACT then error == Contract(e.contract)
    else if e.sourceCommit != SOURCE_COMMIT then error == SourceCommit(e.sourceCommit)
    else ExplainsPages(e, error)
  }

  /** The first failing check past the identity of the plan. */
  ghost predicate ExplainsPages(e: Envelope, error: SmlError) {
    if Clean(e.transitions) then CheckTotals(e, Total(e.transitions)) == Failure(error)
    else exists k :: 0 <= k < |e.transitions| && Clean(e.transitions[..k]) && FailsAt(e.transitions, k, error)
  }

  /** Page `k` is the one the error is about. */
  ghost predicate FailsAt(ts: seq<Transition>, k: nat, error: SmlError)
    requires k < |ts|
  {
    var page := CheckPage(ts[k], PageIds(ts[..k]));
    if page.Failure? then page.error == error else !Total(ts[..k + 1]).Fits() && error == ArithmeticOverflow
  }

  /**
   `SmlElasticWeightPlanV1::validate`: accepts exactly the acceptable plans, and otherwise
   reports the first failing check.
   */
  method Validate(e: Envelope) returns (r: Result<Envelope, SmlError>)
    ensures r.Success? <==> Acceptable(e)
    ensures r.Success? ==> r.value == e
    ensures r.Failure? ==> Explains(e, r.error)
  {
    if e.contract != CONTRACT {
      return Failure(Contract(e.contract));
    }
    if e.sourceCommit != SOURCE_COMMIT {
      return Failure(SourceCommit(e.sourceCommit));
    }
    var seen: set<nat> := {};
    var totals := ZERO;
    for i := 0 to |e.transitions|
      invariant Clean(e.transitions[..i]) && totals == Total(e.transitions[..i]) && seen == PageIds(e.transitions[..i])
    {
      var t := e.transitions[i];
      ExtendPrefix(e.transitions, i);
      PrefixOfClean(e.transitions, i + 1);
      var page := CheckPage(t, seen);
      if page.Failure? {
        return Failure(page.error);
      }
      seen := seen + {t.pageId};
      var next := Accumulate(totals, t);
      if next.Failure? {
        return Failure(next.error);
      }
      totals := next.value;
    }
    assert e.transitions[..|e.transitions|] == e.transitions;
    var checked := CheckTotals(e, totals);
    r := if checked.Failure? then Failure(checked.error) else Success(e);
  }

  lemma {:induction false} DistinctPrefix(ts: seq<Transition>, i: nat)
    requires i < |ts|
    ensures DistinctPages(ts[..i + 1]) <==> DistinctPages(ts[..i]) && ts[i].pageId !in PageIds(ts[..i])
  {
    var longer, prefix := ts[..i + 1], ts[..i];
    if DistinctPages(longer) {
      forall t | t in prefix ensures t.pageId != ts[i].pageId {
        var j :| 0 <= j < i && prefix[j] == t;
        assert longer[j].pageId != longer[i].pageId;
      }
    } else {
      var j, k :| 0 <= j < k < |longer| && longer[j].pageId == longer[k].pageId;
      assert prefix[j] in prefix;
    }
  }

  /** One more page in a prefix. */
  lemma {:induction false} ExtendPrefix(ts: seq<Transition>, i: nat)
    requires i < |ts|
    ensures Total(ts[..i + 1]) == Total(ts[..i]).Plus(Contribution(ts[i]))
    ensures PageIds(ts[..i + 1]) == PageIds(ts[..i]) + {ts[i].pageId}
    ensures (forall t <- ts[..i + 1] :: PageRules(t)) <==> (forall t <- ts[..i] :: PageRules(t)) && PageRules(ts[i])
    ensures DistinctPages(ts[..i + 1]) <==> DistinctPages(ts[..i]) && ts[i].pageId !in PageIds(ts[..i])
  {
    assert ts[..i + 1] == ts[..i] + [ts[i]];
    TotalLast(ts[..i], ts[i]);
    DistinctPrefix(ts, i);
  }

  /** A fault in a prefix is a fault of the list, and sums only grow. */
  lemma {:induction false} PrefixOfClean(ts: seq<Transition>, i: nat)
    requires i <= |ts|
    ensures Clean(ts) ==> Clean(ts[..i])
    decreases |ts| - i
  {
    if i < |ts| {
      PrefixOfClean(ts, i + 1);
      ExtendPrefix(ts, i);
    } else {
      assert ts[..i] == ts;
    }
  }

  // ----- what acceptance means -----

  /** Plans whose pages are permuted are accepted alike. */
  lemma {:induction false} AcceptancePermutes(e: Envelope, ts: seq<Transition>)
    requires multiset(e.transitions) == multiset(ts)
    ensures Acceptable(e) <==> Acceptable(e.(transitions := ts))
  {
    Permuted(e.transitions, ts);
    assert forall t :: t in e.transitions <==> t in multiset(e.transitions);
    assert forall t :: t in ts <==> t in multiset(ts);
  }

  lemma {:induction false} Permuted(ts: seq<Transition>, us: seq<Transition>)
    requires multiset(ts) == multiset(us)
    ensures Total(ts) == Total(us) && (DistinctPages(ts) <==> DistinctPages(us))
  {
    if ts == [] {
      assert |us| == |multiset(us)| == |multiset(ts)| == 0;
    } else {
      var last := |ts| - 1;
      var i := Find(us, ts[last]);
      assert Without(ts, last) == ts[..last];
      MembersWithout(ts, last);
      MembersWithout(us, i);
      Permuted(Without(ts, last), Without(us, i));
      TotalWithout(us, i);
      DistinctWithout(ts, last);
      DistinctWithout(us, i);
    }
  }

  lemma {:induction false} Find(ts: seq<Transition>, t: Transition) returns (i: nat)
    requires t in multiset(ts)
    ensures i < |ts| && ts[i] == t
  {
    assert t in ts;
    i :| 0 <= i < |ts| && ts[i] == t;
  }

  lemma {:induction false} PlusExchange(a: Totals, b: Totals, c: Totals)
    ensures a.Plus(b).Plus(c) == a.Plus(c).Plus(b)
  {
  }

  lemma {:induction false} TotalLast(front: seq<Transition>, t: Transition)
    ensures Total(front + [t]) == Total(front).Plus(Contribution(t))
  {
    assert (front + [t])[..|front|] == front;
  }

  lemma {:induction false} TotalInsert(before: seq<Transition>, t: Transition, after: seq<Transition>)
    ensures Total(before + [t] + after) == Total(before + after).Plus(Contribution(t))
    decreases after
  {
    if after == [] {
      TotalLast(before, t);
      assert before + [t] + after == before + [t] && before + after == before;
    } else {
      var front, last := after[..|after| - 1], after[|after| - 1];
      TotalInsert(before, t, front);
      assert before + [t] + after == before + [t] + front + [last] && before + after == before + front + [last];
      TotalLast(before + [t] + front, last);
      TotalLast(before + front, last);
      PlusExchange(Total(before + front), Contribution(t), Contribution(last));
    }
  }

  lemma {:induction false} TotalWithout(ts: seq<Transition>, i: nat)
    requires i < |ts|
    ensures Total(ts) == Total(Without(ts, i)).Plus(Contribution(ts[i]))
  {
    TotalInsert(ts[..i], ts[i], ts[i + 1..]);
    assert ts == ts[..i] + [ts[i]] + ts[i + 1..];
  }

  lemma {:induction false} DistinctWithout(ts: seq<Transition>, i: nat)
    requires i < |ts|
    ensures DistinctPages(ts)
       <==> DistinctPages(Without(ts, i)) && forall t <- Without(ts, i) :: t.pageId != ts[i].pageId
  {
    var others := Without(ts, i);
    if DistinctPages(ts) {
      forall j | 0 <= j < |others| ensures others[j].pageId != ts[i].pageId {
        assert others[j] == ts[if j < i then j else j + 1];
      }
    } else {
      var j, k :| 0 <= j < k < |ts| && ts[j].pageId == ts[k].pageId;
      assert j != i ==> ts[j] == others[if j < i then j else j - 1];
      assert k != i ==> ts[k] == others[if k < i then k else k - 1];
      assert j != i ==> ts[j] in others;
      assert k != i ==> ts[k] in others;
    }
  }

  /** What every accepted plan respects, beyond the numbers it declares. */
  lemma {:induction false} AcceptedPlan(e: Envelope)
    requires Acceptable(e)
    ensures e.declared.activeStorageBits <= 8 * (e.declared.ramBytes + e.declared.vramBytes)
    ensures e.declared.bytesMovedToRam <= e.declared.ramBytes && e.declared.bytesMovedToVram <= e.declared.vramBytes
    ensures e.declared.activeParameters <= e.declared.activeStorageBits
    ensures e.declared.precisionChanges <= |e.transitions|
  {
    Consistent(e.transitions);
  }

  lemma {:induction false} Consistent(ts: seq<Transition>)
    requires forall t <- ts :: PageRules(t)
    ensures var s := Total(ts);
            && s.activeStorageBits <= 8 * (s.ramBytes + s.vramBytes)
            && s.bytesMovedToRam <= s.ramBytes && s.bytesMovedToVram <= s.vramBytes
            && s.activeParameters <= s.activeStorageBits && s.precisionChanges <= |ts|
  {
    if ts != [] {
      assert ts[|ts| - 1] in ts;
      Consistent(ts[..|ts| - 1]);
    }
  }
}
