/** SML plan validation in terms of the fields alone (`elastic-adapters/src/sml.rs`). */
module SmlLaws {
  import opened Outcomes
  import opened Sml

  // ----- the aggregates -----

  /** The pages an aggregate is about. */
  datatype Pages = ToRam | ToVram | MovedToRam | MovedToVram | StaysOnRam | StaysOnVram | Active | Recoded {

    predicate Has(t: Transition) {
      match this
      case ToRam => t.toResidency == Ram
      case ToVram => t.toResidency == Vram
      case MovedToRam => t.toResidency == Ram && t.fromResidency != Ram
      case MovedToVram => t.toResidency == Vram && t.fromResidency != Vram
      case StaysOnRam => t.toResidency == Ram && t.fromResidency == Ram
      case StaysOnVram => t.toResidency == Vram && t.fromResidency == Vram
      case Active => t.toActive
      case Recoded => t.fromPrecision != t.toPrecision
    }
  }

  /** What is summed; a parameter takes one bit when Boolean, two when Ternary and four when Residual4. */
  datatype Amount = Payload | Parameters | ParameterBits | One {

    function Of(t: Transition): nat {
      match this
      case Payload => t.targetPayloadBytes
      case Parameters => t.parameters
      case ParameterBits =>
        if t.toPrecision == Boolean then t.parameters
        else if t.toPrecision == Ternary then t.parameters + t.parameters
        else t.parameters + t.parameters + t.parameters + t.parameters
      case One => 1
    }
  }

  function Counted(t: Transition, pages: Pages, amount: Amount): nat {
    if pages.Has(t) then amount.Of(t) else 0
  }

  /** The sum of an amount over the pages of a kind. */
  function SumOver(ts: seq<Transition>, pages: Pages, amount: Amount): nat {
    if ts == [] then 0 else SumOver(ts[..|ts| - 1], pages, amount) + Counted(ts[|ts| - 1], pages, amount)
  }

  /** What one page adds to each of the seven sums. */
  function CountedTotals(t: Transition): Totals {
    Totals(Counted(t, ToRam, Payload), Counted(t, ToVram, Payload), Counted(t, Active, Parameters),
           Counted(t, Active, ParameterBits), Counted(t, MovedToRam, Payload), Counted(t, MovedToVram, Payload),
           Counted(t, Recoded, One))
  }

  lemma {:induction false} ContributionInFields(t: Transition)
    ensures Contribution(t) == CountedTotals(t)
  {
  }

  /** The seven sums, each over exactly the pages it is about. */
  function Sums(ts: seq<Transition>): Totals {
    Totals(SumOver(ts, ToRam, Payload), SumOver(ts, ToVram, Payload), SumOver(ts, Active, Parameters),
           SumOver(ts, Active, ParameterBits), SumOver(ts, MovedToRam, Payload), SumOver(ts, MovedToVram, Payload),
           SumOver(ts, Recoded, One))
  }

  lemma {:induction false} SumsLast(ts: seq<Transition>)
    requires ts != []
    ensures Sums(ts) == Sums(ts[..|ts| - 1]).Plus(CountedTotals(ts[|ts| - 1]))
  {
  }

  /** The recomputed aggregates are those sums. */
  lemma {:induction false} TotalIsSums(ts: seq<Transition>)
    ensures Total(ts) == Sums(ts)
  {
    if ts != [] {
      TotalIsSums(ts[..|ts| - 1]);
      ContributionInFields(ts[|ts| - 1]);
      SumsLast(ts);
    }
  }

  /** Bytes resident on a tier were moved there or were there before. */
  lemma {:induction false} ResidentIsMovedOrStayed(ts: seq<Transition>)
    ensures SumOver(ts, ToRam, Payload) == SumOver(ts, MovedToRam, Payload) + SumOver(ts, StaysOnRam, Payload)
    ensures SumOver(ts, ToVram, Payload) == SumOver(ts, MovedToVram, Payload) + SumOver(ts, StaysOnVram, Payload)
  {
    if ts != [] {
      ResidentIsMovedOrStayed(ts[..|ts| - 1]);
    }
  }

  lemma {:induction false} NothingSelected(ts: seq<Transition>, pages: Pages, amount: Amount)
    requires forall t <- ts :: !pages.Has(t)
    ensures SumOver(ts, pages, amount) == 0
  {
    if ts != [] {
      assert ts[|ts| - 1] in ts;
      NothingSelected(ts[..|ts| - 1], pages, amount);
    }
  }

  /** A plan that moves no page moves no bytes; one whose pages all come from disk moves every resident byte. */
  lemma {:induction false} MovedBytes(ts: seq<Transition>)
    ensures Total(ts).ramBytes == Total(ts).bytesMovedToRam + SumOver(ts, StaysOnRam, Payload)
    ensures Total(ts).vramBytes == Total(ts).bytesMovedToVram + SumOver(ts, StaysOnVram, Payload)
    ensures (forall t <- ts :: t.fromResidency == t.toResidency) ==>
              Total(ts).bytesMovedToRam == Total(ts).bytesMovedToVram == 0
    ensures (forall t <- ts :: t.fromResidency == Disk) ==>
              Total(ts).bytesMovedToRam == Total(ts).ramBytes && Total(ts).bytesMovedToVram == Total(ts).vramBytes
  {
    TotalIsSums(ts);
    ResidentIsMovedOrStayed(ts);
    if forall t <- ts :: t.fromResidency == t.toResidency {
      NothingSelected(ts, MovedToRam, Payload);
      NothingSelected(ts, MovedToVram, Payload);
    }
    if forall t <- ts :: t.fromResidency == Disk {
      NothingSelected(ts, StaysOnRam, Payload);
      NothingSelected(ts, StaysOnVram, Payload);
    }
  }

  // ----- the rules of one page -----

  /** The payload holds eight Boolean, four Ternary or two Residual4 parameters a byte, rounded up. */
  predicate HoldsParameters(bytes: nat, t: Transition) {
    match t.toPrecision
    case Boolean => t.parameters <= 8 * bytes < t.parameters + 8
    case Ternary => t.parameters <= 4 * bytes < t.parameters + 4
    case Residual4 => t.parameters <= 2 * bytes < t.parameters + 2
  }

  lemma {:induction false} PageRulesInFields(t: Transition)
    ensures PageRules(t) <==>
              && t.parameters > 0
              && HoldsParameters(t.targetPayloadBytes, t)
              && (t.fromPrecision == t.toPrecision ==> t.toVersion == t.fromVersion)
              && (t.fromPrecision != t.toPrecision ==> t.toVersion == t.fromVersion + 1)
              && !(t.toActive && t.toResidency == Disk)
  {
  }

  lemma {:induction false} PayloadUnique(t: Transition, bytes: nat)
    requires HoldsParameters(bytes, t)
    ensures bytes == PayloadSize(t)
  {
  }

  /** Which error the page checks report: the first broken rule in this order, with the numbers that break it. */
  lemma {:induction false} PageErrors(t: Transition, seen: set<nat>)
    ensures var r, changed := CheckPage(t, seen), t.fromPrecision != t.toPrecision;
            if t.parameters == 0 then r == Failure(ZeroParameters(t.pageId))
            else if t.pageId in seen then r == Failure(DuplicatePage(t.pageId))
            else if !HoldsParameters(t.targetPayloadBytes, t) then
              r.Failure? && r.error.PayloadBytes? && r.error.page == t.pageId
              && HoldsParameters(r.error.expected, t) && r.error.found == t.targetPayloadBytes
            else if changed && t.fromVersion == 0xffff_ffff_ffff_ffff then
              r == Failure(RepresentationVersionOverflow(t.pageId))
            else if changed && t.toVersion != t.fromVersion + 1 then
              r == Failure(RepresentationVersion(t.pageId, t.fromVersion + 1, t.toVersion))
            else if !changed && t.toVersion != t.fromVersion then
              r == Failure(RepresentationVersion(t.pageId, t.fromVersion, t.toVersion))
            else if t.toActive && t.toResidency == Disk then r == Failure(ActivePageOnDisk(t.pageId))
            else r == Success(())
  {
    if HoldsParameters(t.targetPayloadBytes, t) {
      PayloadUnique(t, t.targetPayloadBytes);
    }
  }

  /** Which error the closing checks report: ceilings before declared aggregates, each in this order. */
  lemma {:induction false} TotalsErrors(e: Envelope, s: Totals)
    ensures var r, d := CheckTotals(e, s), e.declared;
            if s.ramBytes > e.ramLimitBytes then r == Failure(RamBudget(s.ramBytes, e.ramLimitBytes))
            else if s.vramBytes > e.vramLimitBytes then r == Failure(VramBudget(s.vramBytes, e.vramLimitBytes))
            else if s.activeParameters > e.maxActiveParameters then
              r == Failure(ActiveParameterBudget(s.activeParameters, e.maxActiveParameters))
            else if d.ramBytes != s.ramBytes then r == Failure(Accounting(RamBytes, s.ramBytes, d.ramBytes))
            else if d.vramBytes != s.vramBytes then r == Failure(Accounting(VramBytes, s.vramBytes, d.vramBytes))
            else if d.activeParameters != s.activeParameters then
              r == Failure(Accounting(ActiveParameters, s.activeParameters, d.activeParameters))
            else if d.activeStorageBits != s.activeStorageBits then
              r == Failure(Accounting(ActiveStorageBits, s.activeStorageBits, d.activeStorageBits))
            else if d.bytesMovedToRam != s.bytesMovedToRam then
              r == Failure(Accounting(BytesMovedToRam, s.bytesMovedToRam, d.bytesMovedToRam))
            else if d.bytesMovedToVram != s.bytesMovedToVram then
              r == Failure(Accounting(BytesMovedToVram, s.bytesMovedToVram, d.bytesMovedToVram))
            else if d.precisionChanges != s.precisionChanges then
              r == Failure(Accounting(PrecisionChanges, s.precisionChanges, d.precisionChanges))
            else r == Success(())
  {
  }

  /** The declared aggregates are the sums over the pages they are about. */
  predicate DeclaresSums(d: Totals, ts: seq<Transition>) {
    && d.ramBytes == SumOver(ts, ToRam, Payload) && d.vramBytes == SumOver(ts, ToVram, Payload)
    && d.activeParameters == SumOver(ts, Active, Parameters)
    && d.activeStorageBits == SumOver(ts, Active, ParameterBits)
    && d.bytesMovedToRam == SumOver(ts, MovedToRam, Payload)
    && d.bytesMovedToVram == SumOver(ts, MovedToVram, Payload)
    && d.precisionChanges == SumOver(ts, Recoded, One)
  }

  lemma {:induction false} DeclaredInFields(d: Totals, ts: seq<Transition>)
    ensures d == Total(ts) <==> DeclaresSums(d, ts)
  {
    TotalIsSums(ts);
  }

  /** Every page obeys its rules, and no two pages have one id. */
  predicate LawfulPages(ts: seq<Transition>) {
    && (forall t <- ts :: PageRules(t))
    && forall i, j :: 0 <= i < j < |ts| ==> ts[i].pageId != ts[j].pageId
  }

  lemma {:induction false} LawfulInFields(ts: seq<Transition>)
    ensures (forall t <- ts :: PageRules(t)) && DistinctPages(ts) <==> LawfulPages(ts)
  {
  }

  /** An acceptable plan, field by field. */
  lemma {:induction false} AcceptableInFields(e: Envelope)
    ensures Acceptable(e) <==>
              && e.contract == CONTRACT && e.sourceCommit == SOURCE_COMMIT
              && LawfulPages(e.transitions) && DeclaresSums(e.declared, e.transitions)
              && e.declared.ramBytes <= e.ramLimitBytes && e.declared.vramBytes <= e.vramLimitBytes
              && e.declared.activeParameters <= e.maxActiveParameters
  {
    LawfulInFields(e.transitions);
    DeclaredInFields(e.declared, e.transitions);
  }

  // ----- which error is reported -----

  /** The sums and the increment are checked against 64 bits, the storage bits against 128. */
  lemma {:induction false} FitsInNumbers(s: Totals)
    ensures s.Fits() <==>
              && s.ramBytes < 0x1_0000_0000_0000_0000 && s.vramBytes < 0x1_0000_0000_0000_0000
              && s.activeParameters < 0x1_0000_0000_0000_0000
              && s.activeStorageBits < 0x1_0000_0000_0000_0000_0000_0000_0000_0000
              && s.bytesMovedToRam < 0x1_0000_0000_0000_0000 && s.bytesMovedToVram < 0x1_0000_0000_0000_0000
              && s.precisionChanges < 0x1_0000_0000_0000_0000
  {
  }

  /** Pages before `k` obey their rules, are distinct, and their sums fit. */
  ghost predicate SoundBefore(ts: seq<Transition>, k: nat)
    requires k <= |ts|
  {
    && (forall j: nat :: j < k ==> PageRules(ts[j]))
    && (forall i: nat, j: nat :: i < j < k ==> ts[i].pageId != ts[j].pageId)
    && Sums(ts[..k]).Fits()
  }

  /** Whether page `k` repeats an earlier page. */
  ghost predicate Repeats(ts: seq<Transition>, k: nat)
    requires k < |ts|
  {
    exists j: nat :: j < k && ts[j].pageId == ts[k].pageId
  }

  lemma {:induction false} SoundIsClean(ts: seq<Transition>, k: nat)
    requires k <= |ts|
    ensures SoundBefore(ts, k) <==> Clean(ts[..k])
  {
    TotalIsSums(ts[..k]);
    var prefix := ts[..k];
    if Clean(prefix) {
      assert forall j: nat :: j < k ==> ts[j] == prefix[j] && prefix[j] in prefix;
    }
  }

  lemma {:induction false} RepeatsIsSeen(ts: seq<Transition>, k: nat)
    requires k < |ts|
    ensures Repeats(ts, k) <==> ts[k].pageId in PageIds(ts[..k])
  {
    if Repeats(ts, k) {
      var j: nat :| j < k && ts[j].pageId == ts[k].pageId;
      assert ts[..k][j] in ts[..k];
    }
  }

  /** Page `k` is the first at fault: it breaks a rule, repeats a page, or makes a sum overflow. */
  ghost predicate FirstBroken(ts: seq<Transition>, k: nat) {
    k < |ts| && SoundBefore(ts, k) && !SoundBefore(ts, k + 1)
  }

  lemma {:induction false} OneFirstPage(e: Envelope, error: SmlError, k: nat)
    requires ExplainsPages(e, error)
    requires k < |e.transitions| && Clean(e.transitions[..k]) && !Clean(e.transitions[..k + 1])
    ensures FailsAt(e.transitions, k, error)
  {
    var ts := e.transitions;
    PrefixOfClean(ts, k + 1);
    var first :| 0 <= first < |ts| && Clean(ts[..first]) && FailsAt(ts, first, error);
    FailsIsNotClean(ts, first, error);
    if first < k {
      PrefixAgain(ts, k, first + 1);
    } else if k < first {
      PrefixAgain(ts, first, k + 1);
    }
  }

  lemma {:induction false} FailsIsNotClean(ts: seq<Transition>, k: nat, error: SmlError)
    requires k < |ts| && FailsAt(ts, k, error)
    ensures !Clean(ts[..k + 1])
  {
    ExtendPrefix(ts, k);
  }

  lemma {:induction false} PrefixAgain(ts: seq<Transition>, n: nat, i: nat)
    requires i <= n <= |ts| && Clean(ts[..n])
    ensures Clean(ts[..i])
  {
    PrefixOfClean(ts[..n], i);
    assert ts[..n][..i] == ts[..i];
  }

  /** A wrong contract is reported first, then a wrong source commit, then what is wrong with the pages. */
  lemma {:induction false} HeaderErrors(e: Envelope, error: SmlError)
    requires Explains(e, error)
    ensures if e.contract != "sml.elastic-weight-plan@1.0.0" then error == Contract(e.contract)
            else if e.sourceCommit != "3e04239862c9d14cb369227f4abbe84b5c7e1d5e" then
              error == SourceCommit(e.sourceCommit)
            else ExplainsPages(e, error)
  {
  }

  /** Then the first page at fault: its first broken rule, or an overflow if it breaks none. */
  lemma {:induction false} FirstPageErrors(e: Envelope, error: SmlError, k: nat)
    requires ExplainsPages(e, error)
    requires FirstBroken(e.transitions, k)
    ensures if PageRules(e.transitions[k]) && !Repeats(e.transitions, k) then error == ArithmeticOverflow
            else CheckPage(e.transitions[k], PageIds(e.transitions[..k])) == Failure(error)
  {
    SoundIsClean(e.transitions, k);
    SoundIsClean(e.transitions, k + 1);
    RepeatsIsSeen(e.transitions, k);
    OneFirstPage(e, error, k);
  }

  /** The closing checks come last, on the sums of all pages. */
  lemma {:induction false} ClosingErrors(e: Envelope, error: SmlError)
    requires ExplainsPages(e, error)
    requires SoundBefore(e.transitions, |e.transitions|)
    ensures CheckTotals(e, Sums(e.transitions)) == Failure(error)
  {
    assert e.transitions[..|e.transitions|] == e.transitions;
    SoundIsClean(e.transitions, |e.transitions|);
    TotalIsSums(e.transitions);
  }
}
