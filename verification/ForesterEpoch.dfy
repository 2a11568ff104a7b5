/**
 test-utils/src/forester_epoch.rs with the registry functions it calls: the phases of an epoch,
 registration of foresters by weight, and the schedule that says which forester works on a
 queue in which slot.
 */
module ForesterEpochs {
  import opened Wrappers
  import opened Bits

  const U64_MAX: nat := TWO_TO_THE_64 - 1

  function SatAdd(a: nat, b: nat): nat {
    if a + b <= U64_MAX then a + b else U64_MAX
  }

  function SatSub(a: nat, b: nat): nat {
    if a >= b then a - b else 0
  }

  function SatMul(a: nat, b: nat): nat {
    if a * b <= U64_MAX then a * b else U64_MAX
  }

  datatype ProtocolConfig = ProtocolConfig(genesisSlot: nat, minWeight: nat, slotLength: nat,
                                           registrationPhaseLength: nat,
                                           activePhaseLength: nat, reportWorkPhaseLength: nat)

  datatype Phase = Phase(start: nat, end: nat)

  datatype EpochPhases = EpochPhases(registration: Phase, active: Phase, reportWork: Phase, post: Phase)

  datatype EpochState = Registration | Active | ReportWork | Post

  predicate Within(p: Phase, slot: nat) {
    p.start <= slot <= p.end
  }

  function GetCurrentEpochState(phases: EpochPhases, slot: nat): EpochState {
    if Within(phases.registration, slot) then Registration
    else if Within(phases.active, slot) then Active
    else if Within(phases.reportWork, slot) then ReportWork
    else Post
  }

  /** A phase of the given length, in saturating arithmetic. */
  function PhaseOf(start: nat, length: nat): Phase {
    Phase(start, SatSub(SatAdd(start, length), 1))
  }

  function GetEpochPhases(config: ProtocolConfig, epoch: nat): EpochPhases {
    var registration := PhaseOf(SatAdd(config.genesisSlot, SatMul(epoch, config.activePhaseLength)),
                                config.registrationPhaseLength);
    var active := PhaseOf(SatAdd(registration.end, 1), config.activePhaseLength);
    var reportWork := PhaseOf(SatAdd(active.end, 1), config.reportWorkPhaseLength);
    EpochPhases(registration, active, reportWork, Phase(SatAdd(reportWork.end, 1), U64_MAX))
  }

  // ---------------------------------------------------------------------------
  // Phases tile the slots
  // ---------------------------------------------------------------------------

  ghost predicate Lengths(config: ProtocolConfig) {
    config.registrationPhaseLength >= 1 && config.activePhaseLength >= 1 && config.reportWorkPhaseLength >= 1
  }

  /** First slot of the registration phase, in exact arithmetic. */
  function EpochStart(config: ProtocolConfig, epoch: nat): nat {
    config.genesisSlot + epoch * config.activePhaseLength
  }

  /** No saturation: the post phase of the epoch starts within the range of slots. */
  ghost predicate Fits(config: ProtocolConfig, epoch: nat) {
    EpochStart(config,
               epoch) + config.registrationPhaseLength + config.activePhaseLength +
                 config.reportWorkPhaseLength <= U64_MAX
  }

  /** The four phases follow each other without gap or overlap and have the configured lengths. */
  ghost predicate Tiled(config: ProtocolConfig, epoch: nat, p: EpochPhases) {
    && p.registration.start == EpochStart(config, epoch)
    && p.registration.end + 1 == p.registration.start + config.registrationPhaseLength == p.active.start
    && p.active.end + 1 == p.active.start + config.activePhaseLength == p.reportWork.start
    && p.reportWork.end + 1 == p.reportWork.start + config.reportWorkPhaseLength == p.post.start <= p.post.end
  }

  /** The phases are as configured exactly if nothing saturates. */
  lemma PhasesTile(config: ProtocolConfig, epoch: nat)
    requires Lengths(config)
    ensures Tiled(config, epoch, GetEpochPhases(config, epoch)) <==> Fits(config, epoch)
  {
  }

  /** Beyond the range of slots the phases are cut off at its end. */
  lemma PhasesSaturate(config: ProtocolConfig, epoch: nat)
    ensures var p := GetEpochPhases(config, epoch);
            && p.registration.start == Min(config.genesisSlot + Min(epoch * config.activePhaseLength, U64_MAX), U64_MAX)
            && p.registration.end == Max(Min(p.registration.start + config.registrationPhaseLength, U64_MAX) - 1, 0)
            && p.active.start == Min(p.registration.end + 1, U64_MAX)
            && p.active.end == Max(Min(p.active.start + config.activePhaseLength, U64_MAX) - 1, 0)
            && p.reportWork.start == Min(p.active.end + 1, U64_MAX)
            && p.reportWork.end == Max(Min(p.reportWork.start + config.reportWorkPhaseLength, U64_MAX) - 1, 0)
            && p.post == Phase(Min(p.reportWork.end + 1, U64_MAX), 0xFFFF_FFFF_FFFF_FFFF)
  {
  }

  function Min(a: int, b: int): int {
    if a <= b then a else b
  }

  function Max(a: int, b: int): int {
    if a >= b then a else b
  }

  /** Before its registration phase an epoch is reported as over. */
  lemma StateBefore(config: ProtocolConfig, epoch: nat, slot: nat)
    requires Lengths(config) && Fits(config, epoch) && slot < config.genesisSlot + epoch * config.activePhaseLength
    ensures GetCurrentEpochState(GetEpochPhases(config, epoch), slot) == Post
  {
    PhasesTile(config, epoch);
  }

  /** Every slot from the start of registration on is in exactly one phase, and that is the state of the epoch. */
  lemma StateIsPhase(config: ProtocolConfig, epoch: nat, slot: nat)
    requires Lengths(config) && Fits(config, epoch) && EpochStart(config, epoch) <= slot <= U64_MAX
    ensures var p, s := GetEpochPhases(config, epoch), GetCurrentEpochState(GetEpochPhases(config, epoch), slot);
            && (Within(p.registration, slot) <==> s == Registration) && (Within(p.active, slot) <==> s == Active)
            && (Within(p.reportWork, slot) <==> s == ReportWork) && (Within(p.post, slot) <==> s == Post)
  {
    PhasesTile(config, epoch);
  }

  // ---------------------------------------------------------------------------
  // Successive epochs
  // ---------------------------------------------------------------------------

  lemma DivIs(x: nat, d: nat, q: nat)
    requires d >= 1
    ensures x / d == q <==> q * d <= x < q * d + d
  {
    if q * d <= x < q * d + d {
      DivUnique(x, d, q, x - q * d);
    }
  }

  /** `get_latest_register_epoch`; before genesis it fails. */
  function GetLatestRegisterEpoch(config: ProtocolConfig, slot: nat): Option<nat>
    requires config.activePhaseLength >= 1
  {
    if slot < config.genesisSlot then None else Some((slot - config.genesisSlot) / config.activePhaseLength)
  }

  /** `get_current_active_epoch`; before the first active phase it fails. */
  function GetCurrentActiveEpoch(config: ProtocolConfig, slot: nat): Option<nat>
    requires config.activePhaseLength >= 1
  {
    var first := config.genesisSlot + config.registrationPhaseLength;
    if slot < first then None else Some((slot - first) / config.activePhaseLength)
  }

  /** The active phases of all epochs tile the slots from the first active phase on. */
  lemma ActivePhasesTile(config: ProtocolConfig, epoch: nat, slot: nat)
    requires Lengths(config) && Fits(config, epoch)
    ensures Within(GetEpochPhases(config, epoch).active, slot) <==> GetCurrentActiveEpoch(config, slot) == Some(epoch)
  {
    PhasesTile(config, epoch);
    var first := config.genesisSlot + config.registrationPhaseLength;
    if slot >= first {
      DivIs(slot - first, config.activePhaseLength, epoch);
    } else {
      assert epoch * config.activePhaseLength >= 0;
    }
  }

  datatype EpochRegistration = EpochRegistration(epoch: nat, slotsUntilRegistrationStarts: nat,
                                                 slotsUntilRegistrationEnds: nat)

  function SlotsUntilNextEpochRegistration(config: ProtocolConfig, slot: nat): Option<EpochRegistration>
    requires config.activePhaseLength >= 1
  {
    var latest := GetLatestRegisterEpoch(config, slot);
    if latest.None? then None
    else
      var epoch := if slot > EpochStart(config, latest.value) + config.registrationPhaseLength
                   then latest.value + 1 else latest.value;
      var start := EpochStart(config, epoch);
      Some(EpochRegistration(epoch, SatSub(start, slot), SatSub(start + config.registrationPhaseLength, slot)))
  }

  /**
   What `slots_until_next_epoch_registration` reports: up to one slot after the end of a
   registration phase its epoch and the slots left of it, and after that the next epoch and the
   distance to the start and the end of its registration phase.
   */
  lemma NextRegistration(config: ProtocolConfig, epoch: nat, slot: nat)
    requires config.activePhaseLength >= 1
    requires var start := config.genesisSlot + epoch * config.activePhaseLength;
             start <= slot < start + config.activePhaseLength
    ensures var start, length := config.genesisSlot + epoch * config.activePhaseLength, config.registrationPhaseLength;
            var next := start + config.activePhaseLength;
            SlotsUntilNextEpochRegistration(config, slot) == Some(
              if slot <= start + length then EpochRegistration(epoch, 0, start + length - slot)
              else EpochRegistration(epoch + 1, next - slot, next + length - slot))
  {
    EpochBounds(config, slot, epoch);
  }

  /** The epoch `register` goes on to register for, if it does not return at its guard. */
  function RegistersFor(config: ProtocolConfig, slot: nat): Option<nat>
    requires config.activePhaseLength >= 1
  {
    var r := SlotsUntilNextEpochRegistration(config, slot);
    if r.None? || r.value.slotsUntilRegistrationStarts > 0 || r.value.slotsUntilRegistrationEnds == 0 then None
    else Some(r.value.epoch)
  }

  lemma EpochBounds(config: ProtocolConfig, slot: nat, epoch: nat)
    requires config.activePhaseLength >= 1
    ensures GetLatestRegisterEpoch(config, slot) == Some(epoch) <==>
            EpochStart(config, epoch) <= slot < EpochStart(config, epoch) + config.activePhaseLength
    ensures EpochStart(config, epoch + 1) == EpochStart(config, epoch) + config.activePhaseLength
  {
    if slot >= config.genesisSlot {
      DivIs(slot - config.genesisSlot, config.activePhaseLength, epoch);
    } else {
      assert epoch * config.activePhaseLength >= 0;
    }
    assert (epoch + 1) * config.activePhaseLength == epoch * config.activePhaseLength + config.activePhaseLength;
  }

  /** `register` proceeds exactly in the registration phase of an epoch, and then for that epoch. */
  lemma RegisterGuard(config: ProtocolConfig, epoch: nat, slot: nat)
    requires Lengths(config) && Fits(config, epoch) && config.registrationPhaseLength <= config.activePhaseLength
    ensures RegistersFor(config, slot) == Some(epoch) <==>
              GetCurrentEpochState(GetEpochPhases(config, epoch), slot) == Registration
  {
    hide EpochStart;
    PhasesTile(config, epoch);
    EpochBounds(config, slot, epoch);
    var latest := GetLatestRegisterEpoch(config, slot);
    if latest.Some? { EpochBounds(config, slot, latest.value); }
  }

  /** The registry's own check; on success, where the active phase of the epoch being registered for starts. */
  function IsRegistrationPhase(config: ProtocolConfig, slot: nat): Option<nat>
    requires config.activePhaseLength >= 1
  {
    if slot < config.genesisSlot then None
    else
      var x := slot - config.genesisSlot;
      if x % config.activePhaseLength >= config.registrationPhaseLength then None
      else Some((x / config.activePhaseLength) * config.activePhaseLength + config.genesisSlot +
                config.registrationPhaseLength)
  }

  /** Client and registry agree on when registration is open, and on the epoch. */
  lemma RegistryAgrees(config: ProtocolConfig, slot: nat)
    requires Lengths(config) && config.registrationPhaseLength <= config.activePhaseLength
    ensures IsRegistrationPhase(config, slot).Some? <==> RegistersFor(config, slot).Some?
    ensures RegistersFor(config, slot).Some? ==>
              IsRegistrationPhase(config, slot).value ==
                EpochStart(config, RegistersFor(config, slot).value) + config.registrationPhaseLength
  {
    if slot >= config.genesisSlot {
      var e := GetLatestRegisterEpoch(config, slot).value;
      EpochBounds(config, slot, e);
      var x := slot - config.genesisSlot;
      assert x == e * config.activePhaseLength + x % config.activePhaseLength;
    }
  }

  // ---------------------------------------------------------------------------
  // Registration
  // ---------------------------------------------------------------------------

  datatype ForesterEpochPda = ForesterEpochPda(epoch: nat, weight: nat, foresterIndex: nat,
                                               epochActivePhaseStartSlot: nat, config: ProtocolConfig)

  datatype RegistryError = InvalidEpoch | WeightInsufficient | NotInRegistrationPeriod | Overflow

  /** The forester whose range of weights contains the number is eligible. */
  predicate IsEligible(f: ForesterEpochPda, number: nat) {
    f.foresterIndex <= number < f.foresterIndex + f.weight
  }

  /** The ranges of the foresters lie side by side and fill everything from 0 up to `total`. */
  ghost predicate RangesTile(fs: seq<ForesterEpochPda>, total: nat)
    decreases |fs|
  {
    if fs == [] then total == 0
    else
      var f := fs[|fs| - 1];
      total == f.foresterIndex + f.weight && RangesTile(fs[..|fs| - 1], f.foresterIndex)
  }

  class EpochPda {
    const epoch: nat
    /** Copied from the registry at every registration, as long as the registered weight is 0. */
    var config: ProtocolConfig
    var registeredWeight: nat
    /** Everybody registered for the epoch, in order. */
    ghost var foresters: seq<ForesterEpochPda>

    /** Foresters of weight 0 may have registered under another configuration. */
    ghost predicate Valid()
      reads this
    {
      && config.activePhaseLength >= 1 && registeredWeight <= U64_MAX
      && RangesTile(foresters, registeredWeight)
      && forall i: nat :: i < |foresters| ==> RegisteredUnder(foresters[i], epoch, config)
    }

    constructor (epoch: nat, config: ProtocolConfig)
      requires config.activePhaseLength >= 1
      ensures Valid() && foresters == [] && this.epoch == epoch && this.config == config && registeredWeight == 0
    {
      this.epoch, this.config, registeredWeight, foresters := epoch, config, 0, [];
    }

    /** The configuration that counts for the next registration. */
    function NextConfig(protocolConfig: ProtocolConfig): ProtocolConfig
      reads this
    {
      if registeredWeight == 0 then protocolConfig else config
    }

    /** A forester of the given weight is accepted. */
    ghost predicate CanRegister(protocolConfig: ProtocolConfig, activeWeight: nat, slot: nat)
      reads this
      requires Valid() && protocolConfig.activePhaseLength >= 1
    {
      var config := NextConfig(protocolConfig);
      && GetLatestRegisterEpoch(config, slot) == Some(epoch)
      && activeWeight >= config.minWeight && IsRegistrationPhase(config, slot).Some?
      && registeredWeight + activeWeight <= U64_MAX
    }

    /** Gives the forester the range of weights that ends at the new total weight. */
    method RegisterForEpoch(protocolConfig: ProtocolConfig, activeWeight: nat, slot: nat)
      returns (r: Result<ForesterEpochPda, RegistryError>)
      requires Valid() && protocolConfig.activePhaseLength >= 1
      modifies this
      ensures Valid() && config == old(NextConfig(protocolConfig))
      ensures r.Success? <==> old(CanRegister(protocolConfig, activeWeight, slot))
      ensures r == Failure(InvalidEpoch) <==> GetLatestRegisterEpoch(config, slot) != Some(epoch)
      ensures r == Failure(WeightInsufficient) <==>
              GetLatestRegisterEpoch(config, slot) == Some(epoch) && activeWeight < config.minWeight
      ensures r == Failure(NotInRegistrationPeriod) <==>
              && GetLatestRegisterEpoch(config, slot) == Some(epoch) && activeWeight >= config.minWeight
              && IsRegistrationPhase(config, slot).None?
      ensures r.Failure? ==> foresters == old(foresters) && registeredWeight == old(registeredWeight)
      ensures r.Success? ==>
                && foresters == old(foresters) + [r.value] && registeredWeight == old(registeredWeight) + activeWeight
                && r.value ==
                   ForesterEpochPda(epoch, activeWeight, registeredWeight - activeWeight,
                                    IsRegistrationPhase(config, slot).value, config)
    {
      if registeredWeight == 0 {
        NoWeight(foresters);
        config := protocolConfig;
      }
      if GetLatestRegisterEpoch(config, slot) != Some(epoch) {
        return Failure(InvalidEpoch);
      }
      if activeWeight < config.minWeight {
        return Failure(WeightInsufficient);
      }
      var activeStart := IsRegistrationPhase(config, slot);
      if activeStart.None? {
        return Failure(NotInRegistrationPeriod);
      }
      if registeredWeight + activeWeight > U64_MAX {
        return Failure(Overflow);
      }
      var pda := ForesterEpochPda(epoch, activeWeight, registeredWeight, activeStart.value, config);
      assert (foresters + [pda])[..|foresters|] == foresters;
      registeredWeight := registeredWeight + activeWeight;
      foresters := foresters + [pda];
      return Success(pda);
    }
  }

  /** A forester with weight registered under this configuration. */
  ghost predicate RegisteredUnder(f: ForesterEpochPda, epoch: nat, config: ProtocolConfig) {
    && f.epoch == epoch && f.config.activePhaseLength >= 1
    && (f.weight > 0 ==>
          && f.config == config && config.activePhaseLength >= 1
          && f.epochActivePhaseStartSlot == EpochStart(config, epoch) + config.registrationPhaseLength)
  }

  lemma {:induction false} NoWeight(fs: seq<ForesterEpochPda>)
    requires RangesTile(fs, 0)
    ensures forall i: nat :: i < |fs| ==> fs[i].weight == 0
    decreases |fs|
  {
    if fs != [] {
      var rest := fs[..|fs| - 1];
      NoWeight(rest);
      forall i: nat | i < |fs| ensures fs[i].weight == 0 {
        assert i < |rest| ==> fs[i] == rest[i];
      }
    }
  }

  /** Every number below the total weight belongs to exactly one forester, and no other number to any. */
  lemma {:induction false} ExactlyOneEligible(fs: seq<ForesterEpochPda>, total: nat, number: nat)
    requires RangesTile(fs, total)
    ensures number < total ==> exists i: nat :: i < |fs| && IsEligible(fs[i], number)
    ensures forall i: nat :: i < |fs| && IsEligible(fs[i], number) ==> number < total
    ensures forall i: nat, j: nat :: i < |fs| && j < |fs| && IsEligible(fs[i], number) && IsEligible(fs[j], number) ==>
              i == j
    decreases |fs|
  {
    if fs != [] {
      var n := |fs| - 1;
      var rest := fs[..n];
      ExactlyOneEligible(rest, fs[n].foresterIndex, number);
      forall i: nat | i < n ensures fs[i] == rest[i] {}
      if number < fs[n].foresterIndex {
        var i: nat :| i < |rest| && IsEligible(rest[i], number);
        assert IsEligible(fs[i], number);
      } else if number < total {
        assert IsEligible(fs[n], number);
      }
    }
  }

  // ---------------------------------------------------------------------------
  // Schedules
  // ---------------------------------------------------------------------------

  datatype ForesterSlot = ForesterSlot(slot: nat, startSolanaSlot: nat, endSolanaSlot: nat, foresterIndex: nat)

  /** The hash that picks a number for an epoch and a light slot of one queue. */
  datatype Lottery = Lottery(hash: (nat, nat) -> nat) {
    /** `get_eligible_forester_index` */
    function Draw(lightSlot: nat, totalEpochWeight: nat, epoch: nat): (number: nat)
      requires totalEpochWeight > 0
      ensures number < totalEpochWeight
    {
      hash(epoch, lightSlot) % totalEpochWeight
    }
  }

  /** Entry `i` of the schedule of a queue. The number is drawn for light slot 0, whatever `i` is. */
  function QueueSlot(lottery: Lottery, startSolanaSlot: nat, config: ProtocolConfig, total: nat, epoch: nat,
                     i: nat): ForesterSlot
    requires total > 0
  {
    var start := startSolanaSlot + i * config.slotLength;
    ForesterSlot(i, start, start + config.slotLength, lottery.Draw(0, total, epoch))
  }

  /** Light slots of an active phase that a schedule has entries for. */
  function Entries(config: ProtocolConfig): nat
    requires config.slotLength > 0
  {
    config.activePhaseLength / config.slotLength
  }

  /**
   The schedule of a queue; `None` is the overflow of the slot numbers. Each entry covers one
   light slot and starts where the one before it ends.
   */
  method GetScheduleForQueue(startSolanaSlot: nat, lottery: Lottery, config: ProtocolConfig, total: nat, epoch: nat)
    returns (r: Option<seq<Option<ForesterSlot>>>)
    requires config.slotLength > 0 && total > 0 && startSolanaSlot <= U64_MAX
    ensures r.None? <==> startSolanaSlot + Entries(config) * config.slotLength > U64_MAX
    ensures r.Some? ==> |r.value| == Entries(config)
    ensures r.Some? ==> forall i: nat {:trigger r.value[i]} :: i < |r.value| ==>
                          r.value[i] == Some(QueueSlot(lottery, startSolanaSlot, config, total, epoch, i))
    ensures r.Some? ==> forall i: nat {:trigger r.value[i]} :: i < |r.value| ==>
                          && r.value[i].Some? && r.value[i].value.slot == i
                          && r.value[i].value.endSolanaSlot == r.value[i].value.startSolanaSlot + config.slotLength
                          && r.value[i].value.foresterIndex == lottery.hash(epoch, 0) % total
    ensures r.Some? && r.value != [] ==> r.value[0].value.startSolanaSlot == startSolanaSlot
    ensures r.Some? ==> forall i: nat, j: nat :: j == i + 1 && j < |r.value| ==>
                          r.value[j].value.startSolanaSlot == r.value[i].value.endSolanaSlot
  {
    var schedule := [];
    var startSlot := 0;
    var endSlot := startSlot + config.activePhaseLength / config.slotLength;
    var currentStart := startSolanaSlot;
    for i := startSlot to endSlot
      invariant |schedule| == i && currentStart == startSolanaSlot + i * config.slotLength <= U64_MAX
      invariant forall k: nat {:trigger schedule[k]} :: k < i ==>
                  schedule[k] == Some(QueueSlot(lottery, startSolanaSlot, config, total, epoch, k))
    {
      OneSlotMore(i, config.slotLength);
      var foresterIndex := lottery.Draw(startSlot, total, epoch);
      if currentStart + config.slotLength > U64_MAX {
        FewerSlots(i + 1, endSlot, config.slotLength);
        return None;
      }
      schedule := schedule + [Some(ForesterSlot(i, currentStart, currentStart + config.slotLength, foresterIndex))];
      currentStart := currentStart + config.slotLength;
    }
    EntriesFollow(lottery, startSolanaSlot, config, total, epoch, schedule);
    return Some(schedule);
  }

  lemma EntriesFollow(lottery: Lottery, startSolanaSlot: nat, config: ProtocolConfig, total: nat, epoch: nat,
                      schedule: seq<Option<ForesterSlot>>)
    requires config.slotLength > 0 && total > 0
    requires forall i: nat {:trigger schedule[i]} :: i < |schedule| ==>
               schedule[i] == Some(QueueSlot(lottery, startSolanaSlot, config, total, epoch, i))
    ensures forall i: nat {:trigger schedule[i]} :: i < |schedule| ==>
              && schedule[i].Some? && schedule[i].value.slot == i
              && schedule[i].value.endSolanaSlot == schedule[i].value.startSolanaSlot + config.slotLength
              && schedule[i].value.foresterIndex == lottery.hash(epoch, 0) % total
    ensures schedule != [] ==> schedule[0].value.startSolanaSlot == startSolanaSlot
    ensures forall i: nat, j: nat :: j == i + 1 && j < |schedule| ==>
              schedule[j].value.startSolanaSlot == schedule[i].value.endSolanaSlot
  {
    forall i: nat, j: nat | j == i + 1 && j < |schedule|
      ensures schedule[j].value.startSolanaSlot == schedule[i].value.endSolanaSlot
    {
      OneSlotMore(i, config.slotLength);
    }
  }

  lemma OneSlotMore(i: nat, length: nat)
    ensures (i + 1) * length == i * length + length
  {
  }

  /** Every slot of the time that a schedule covers lies in exactly one entry, that of its light slot. */
  lemma CoveredOnce(lottery: Lottery, startSolanaSlot: nat, config: ProtocolConfig, total: nat, epoch: nat,
                    schedule: seq<Option<ForesterSlot>>, slot: nat)
    requires config.slotLength > 0 && total > 0
    requires forall i: nat {:trigger schedule[i]} :: i < |schedule| ==>
               schedule[i] == Some(QueueSlot(lottery, startSolanaSlot, config, total, epoch, i))
    requires startSolanaSlot <= slot < startSolanaSlot + |schedule| * config.slotLength
    ensures var lightSlot := (slot - startSolanaSlot) / config.slotLength;
            && lightSlot < |schedule|
            && forall i: nat :: i < |schedule| ==>
                 && schedule[i].Some?
                 && (schedule[i].value.startSolanaSlot <= slot < schedule[i].value.endSolanaSlot <==> i == lightSlot)
  {
    BelowMultiple(slot - startSolanaSlot, |schedule|, config.slotLength);
    forall i: nat | i < |schedule|
      ensures schedule[i].Some?
      ensures schedule[i].value.startSolanaSlot <= slot < schedule[i].value.endSolanaSlot <==>
              i == (slot - startSolanaSlot) / config.slotLength
    {
      EntryOfSlot(lottery, startSolanaSlot, config, total, epoch, schedule, slot, i);
    }
  }

  lemma EntryOfSlot(lottery: Lottery, startSolanaSlot: nat, config: ProtocolConfig, total: nat, epoch: nat,
                    schedule: seq<Option<ForesterSlot>>, slot: nat, i: nat)
    requires config.slotLength > 0 && total > 0 && slot >= startSolanaSlot && i < |schedule|
    requires schedule[i] == Some(QueueSlot(lottery, startSolanaSlot, config, total, epoch, i))
    ensures schedule[i].value.startSolanaSlot <= slot < schedule[i].value.endSolanaSlot <==>
            i == (slot - startSolanaSlot) / config.slotLength
  {
    DivIs(slot - startSolanaSlot, config.slotLength, i);
  }

  lemma FewerSlots(a: nat, b: nat, length: nat)
    requires a <= b
    ensures a * length <= b * length
  {
    assert b * length == a * length + (b - a) * length;
  }

  /** The schedule of the queue with the slots blanked for which the forester is not eligible. */
  method GetScheduleForForesterInQueue(startSolanaSlot: nat, lottery: Lottery, total: nat, f: ForesterEpochPda)
    returns (r: Option<seq<Option<ForesterSlot>>>)
    requires f.config.slotLength > 0 && total > 0 && startSolanaSlot <= U64_MAX
    ensures r.None? <==> startSolanaSlot + Entries(f.config) * f.config.slotLength > U64_MAX
    ensures r.Some? ==> IsScheduleOf(startSolanaSlot, lottery, total, f, r.value)
    ensures r.Some? ==> forall i: nat {:trigger r.value[i]} :: i < |r.value| ==>
                          var number := lottery.hash(f.epoch, 0) % total;
                          if f.foresterIndex <= number < f.foresterIndex + f.weight
                          then
                            && r.value[i].Some? && r.value[i].value.slot == i
                            && r.value[i].value.startSolanaSlot == startSolanaSlot + i * f.config.slotLength
                            && r.value[i].value.endSolanaSlot == r.value[i].value.startSolanaSlot + f.config.slotLength
                            && r.value[i].value.foresterIndex == number
                          else r.value[i].None?
  {
    r := GetScheduleForQueue(startSolanaSlot, lottery, f.config, total, f.epoch);
    if r.None? {
      return;
    }
    var slots := r.value;
    ghost var all := slots;
    for i := 0 to |slots|
      invariant |slots| == |all|
      invariant forall k: nat {:trigger slots[k]} :: k < |slots| ==>
                  slots[k] == if k < i && !IsEligible(f, all[k].value.foresterIndex) then None else all[k]
    {
      if !IsEligible(f, slots[i].value.foresterIndex) {
        slots := slots[i := None];
      }
    }
    return Some(slots);
  }

  ghost predicate IsScheduleOf(startSolanaSlot: nat, lottery: Lottery, total: nat, f: ForesterEpochPda,
                               slots: seq<Option<ForesterSlot>>)
    requires f.config.slotLength > 0 && total > 0
  {
    && |slots| == Entries(f.config)
    && forall i: nat {:trigger slots[i]} :: i < |slots| ==>
         var entry := QueueSlot(lottery, startSolanaSlot, f.config, total, f.epoch, i);
         slots[i] == if IsEligible(f, entry.foresterIndex) then Some(entry) else None
  }

  /** The schedules of all registered foresters, in the order of registration. */
  ghost predicate AreSchedulesOf(e: EpochPda, startSolanaSlot: nat, lottery: Lottery,
                                 schedules: seq<seq<Option<ForesterSlot>>>)
    reads e
    requires e.Valid() && e.registeredWeight > 0 && e.config.slotLength > 0
  {
    && |schedules| == |e.foresters|
    && forall j: nat {:trigger schedules[j]} :: j < |schedules| ==>
         && e.foresters[j].config.slotLength > 0
         && IsScheduleOf(startSolanaSlot, lottery, e.registeredWeight, e.foresters[j], schedules[j])
  }

  /** Forester `j` has an entry for slot `i` in its schedule. */
  ghost predicate Scheduled(schedules: seq<seq<Option<ForesterSlot>>>, j: nat, i: nat) {
    j < |schedules| && i < |schedules[j]| && schedules[j][i].Some?
  }

  /** Who has an entry: the forester of the number drawn for light slot 0, in every light slot that has entries. */
  lemma ScheduledIf(e: EpochPda, startSolanaSlot: nat, lottery: Lottery, schedules: seq<seq<Option<ForesterSlot>>>,
                    j: nat, i: nat)
    requires e.Valid() && e.registeredWeight > 0 && e.config.slotLength > 0
    requires AreSchedulesOf(e, startSolanaSlot, lottery, schedules)
    ensures Scheduled(schedules, j, i) <==>
            && i < Entries(e.config) && j < |e.foresters|
            && IsEligible(e.foresters[j], lottery.Draw(0, e.registeredWeight, e.epoch))
  {
  }

  /** In every light slot that has entries exactly one registered forester has one, in any other nobody. */
  lemma ExactlyOneScheduled(e: EpochPda, startSolanaSlot: nat, lottery: Lottery,
                            schedules: seq<seq<Option<ForesterSlot>>>, i: nat)
    requires e.Valid() && e.registeredWeight > 0 && e.config.slotLength > 0
    requires AreSchedulesOf(e, startSolanaSlot, lottery, schedules)
    ensures i < Entries(e.config) <==> exists j: nat :: Scheduled(schedules, j, i)
    ensures forall j: nat, k: nat :: Scheduled(schedules, j, i) && Scheduled(schedules, k, i) ==> j == k
  {
    hide Scheduled, AreSchedulesOf, IsEligible, Entries;
    var number := lottery.Draw(0, e.registeredWeight, e.epoch);
    ExactlyOneEligible(e.foresters, e.registeredWeight, number);
    forall j: nat
      ensures Scheduled(schedules, j, i) <==>
                i < Entries(e.config) && j < |e.foresters| && IsEligible(e.foresters[j], number)
    {
      ScheduledIf(e, startSolanaSlot, lottery, schedules, j, i);
    }
    var j: nat :| j < |e.foresters| && IsEligible(e.foresters[j], number);
    assert i < Entries(e.config) ==> Scheduled(schedules, j, i);
  }

  // ---------------------------------------------------------------------------
  // The check made by the registry
  // ---------------------------------------------------------------------------

  /**
   `check_eligibility`: the slot is in the active phase, and the number drawn for its light slot
   belongs to the forester.
   */
  predicate CheckEligibility(f: ForesterEpochPda, lottery: Lottery, total: nat, slot: nat)
    requires f.config.activePhaseLength >= 1 && total > 0
  {
    && f.config.slotLength > 0
    && GetCurrentActiveEpoch(f.config, slot) == Some(f.epoch)
    && slot >= f.epochActivePhaseStartSlot
    && IsEligible(f, lottery.Draw((slot - f.epochActivePhaseStartSlot) / f.config.slotLength, total, f.epoch))
  }

  /** Registered forester `j` may work on the queue in the given slot. */
  ghost predicate MayWork(e: EpochPda, lottery: Lottery, slot: nat, j: nat)
    reads e
    requires e.Valid() && e.registeredWeight > 0 && e.config.slotLength > 0
  {
    j < |e.foresters| && CheckEligibility(e.foresters[j], lottery, e.registeredWeight, slot)
  }

  /** The light slot that a slot of the active phase belongs to. */
  function LightSlot(config: ProtocolConfig, epoch: nat, slot: nat): nat
    requires config.slotLength > 0 && slot >= EpochStart(config, epoch) + config.registrationPhaseLength
  {
    (slot - (EpochStart(config, epoch) + config.registrationPhaseLength)) / config.slotLength
  }

  /** The number that decides who may work in a slot of the active phase. */
  ghost function DrawnAt(e: EpochPda, lottery: Lottery, slot: nat): (number: nat)
    reads e
    requires e.registeredWeight > 0 && e.config.slotLength > 0
    requires slot >= EpochStart(e.config, e.epoch) + e.config.registrationPhaseLength
    ensures number < e.registeredWeight
  {
    lottery.Draw(LightSlot(e.config, e.epoch, slot), e.registeredWeight, e.epoch)
  }

  lemma MayWorkIf(e: EpochPda, lottery: Lottery, slot: nat, j: nat)
    requires e.Valid() && e.registeredWeight > 0 && e.config.slotLength > 0 && Lengths(e.config)
    requires Fits(e.config, e.epoch)
    ensures MayWork(e, lottery, slot, j) <==>
            && Within(GetEpochPhases(e.config, e.epoch).active, slot)
            && slot >= EpochStart(e.config, e.epoch) + e.config.registrationPhaseLength
            && j < |e.foresters| && IsEligible(e.foresters[j], DrawnAt(e, lottery, slot))
  {
    ActivePhasesTile(e.config, e.epoch, slot);
    PhasesTile(e.config, e.epoch);
  }

  /** Who may work, in plain numbers: the forester in whose range the hash of the current light slot falls. */
  lemma WorkerIs(e: EpochPda, lottery: Lottery, slot: nat, j: nat)
    requires e.Valid() && e.registeredWeight > 0 && e.config.slotLength > 0 && Lengths(e.config)
    requires Fits(e.config, e.epoch)
    ensures var start := e.config.genesisSlot + e.epoch * e.config.activePhaseLength + e.config.registrationPhaseLength;
            MayWork(e, lottery, slot, j) <==>
            && start <= slot < start + e.config.activePhaseLength && j < |e.foresters|
            && var number := lottery.hash(e.epoch, (slot - start) / e.config.slotLength) % e.registeredWeight;
               e.foresters[j].foresterIndex <= number < e.foresters[j].foresterIndex + e.foresters[j].weight
  {
    MayWorkIf(e, lottery, slot, j);
    PhasesTile(e.config, e.epoch);
  }

  /** At any slot of the active phase exactly one registered forester may work on a queue, at any other slot nobody. */
  lemma ExactlyOneMayWork(e: EpochPda, lottery: Lottery, slot: nat)
    requires e.Valid() && e.registeredWeight > 0 && e.config.slotLength > 0 && Lengths(e.config)
    requires Fits(e.config, e.epoch)
    ensures Within(GetEpochPhases(e.config, e.epoch).active, slot) <==> exists j: nat :: MayWork(e, lottery, slot, j)
    ensures forall j: nat, k: nat :: MayWork(e, lottery, slot, j) && MayWork(e, lottery, slot, k) ==> j == k
  {
    hide MayWork, DrawnAt, IsEligible, GetEpochPhases;
    PhasesTile(e.config, e.epoch);
    forall j: nat
      ensures MayWork(e, lottery, slot, j) ==> Within(GetEpochPhases(e.config, e.epoch).active, slot)
    {
      MayWorkIf(e, lottery, slot, j);
    }
    if Within(GetEpochPhases(e.config, e.epoch).active, slot) {
      var number := DrawnAt(e, lottery, slot);
      ExactlyOneEligible(e.foresters, e.registeredWeight, number);
      forall j: nat
        ensures MayWork(e, lottery, slot, j) <==> j < |e.foresters| && IsEligible(e.foresters[j], number)
      {
        MayWorkIf(e, lottery, slot, j);
      }
      var j: nat :| j < |e.foresters| && IsEligible(e.foresters[j], number);
      assert MayWork(e, lottery, slot, j);
    }
  }

  /**
   Once a forester with weight has registered and the active phase has begun nobody can register
   for the epoch any more, whatever the registry's configuration is by then: the total weight is
   final.
   */
  lemma TotalIsFinal(e: EpochPda, protocolConfig: ProtocolConfig, activeWeight: nat, slot: nat)
    requires e.Valid() && e.registeredWeight > 0 && protocolConfig.activePhaseLength >= 1
    requires Lengths(e.config) && Fits(e.config, e.epoch)
    requires e.config.registrationPhaseLength <= e.config.activePhaseLength
    requires slot >= GetEpochPhases(e.config, e.epoch).active.start
    ensures !e.CanRegister(protocolConfig, activeWeight, slot)
  {
    PhasesTile(e.config, e.epoch);
    RegisterGuard(e.config, e.epoch, slot);
    RegistryAgrees(e.config, slot);
    if GetLatestRegisterEpoch(e.config, slot) == Some(e.epoch) { EpochBounds(e.config, slot, e.epoch); }
  }

  /**
   A forester of weight 0 does not fix the configuration of the epoch. Under one that starts
   later a forester with weight can still register after the active phase of the first one began.
   */
  method WeightZeroFixesNothing() returns (e: EpochPda)
    ensures e.Valid() && |e.foresters| == 2 && e.registeredWeight == 1
    ensures e.foresters[0].config != e.foresters[1].config == e.config
    ensures e.foresters[1].epochActivePhaseStartSlot > GetEpochPhases(e.foresters[0].config, e.epoch).active.end
  {
    var first, second := ProtocolConfig(0, 0, 10, 100, 1000, 100), ProtocolConfig(5000, 0, 10, 100, 1000, 100);
    e := new EpochPda(0, first);
    var a := e.RegisterForEpoch(first, 0, 0);
    var b := e.RegisterForEpoch(second, 1, 5000);
  }

  /**
   The schedule draws its number for light slot 0 only, and has only as many entries as whole
   light slots fit into the active phase. The registry draws for the current light slot, which
   may be an incomplete one. In a slot of the active phase the schedules and the registry agree
   on all foresters exactly if the light slot has entries and both numbers belong to the same
   forester.
   */
  lemma ScheduleAgreesWithRegistry(e: EpochPda, startSolanaSlot: nat, lottery: Lottery,
                                   schedules: seq<seq<Option<ForesterSlot>>>, slot: nat)
    requires e.Valid() && e.registeredWeight > 0 && e.config.slotLength > 0 && Lengths(e.config)
    requires Fits(e.config, e.epoch)
    requires AreSchedulesOf(e, startSolanaSlot, lottery, schedules)
    requires Within(GetEpochPhases(e.config, e.epoch).active, slot)
    ensures slot >= EpochStart(e.config, e.epoch) + e.config.registrationPhaseLength
    ensures var i, scheduled := LightSlot(e.config, e.epoch, slot), lottery.Draw(0, e.registeredWeight, e.epoch);
            (forall j: nat :: Scheduled(schedules, j, i) <==> MayWork(e, lottery, slot, j))
            <==> i < Entries(e.config) && exists j: nat :: Both(e, j, scheduled, DrawnAt(e, lottery, slot))
  {
    hide MayWork, DrawnAt, IsEligible, GetEpochPhases, Scheduled, AreSchedulesOf, Entries, LightSlot;
    PhasesTile(e.config, e.epoch);
    var i, scheduled := LightSlot(e.config, e.epoch, slot), lottery.Draw(0, e.registeredWeight, e.epoch);
    var drawn := DrawnAt(e, lottery, slot);
    ExactlyOneEligible(e.foresters, e.registeredWeight, scheduled);
    ExactlyOneEligible(e.foresters, e.registeredWeight, drawn);
    forall j: nat
      ensures MayWork(e, lottery, slot, j) <==> j < |e.foresters| && IsEligible(e.foresters[j], drawn)
      ensures Scheduled(schedules, j, i) <==>
                i < Entries(e.config) && j < |e.foresters| && IsEligible(e.foresters[j], scheduled)
    {
      MayWorkIf(e, lottery, slot, j);
      ScheduledIf(e, startSolanaSlot, lottery, schedules, j, i);
    }
    var j: nat :| j < |e.foresters| && IsEligible(e.foresters[j], drawn);
    assert MayWork(e, lottery, slot, j);
    if i < Entries(e.config) && Scheduled(schedules, j, i) {
      assert Both(e, j, scheduled, drawn);
    }
  }

  /** Both numbers belong to registered forester `j`. */
  ghost predicate Both(e: EpochPda, j: nat, a: nat, b: nat)
    reads e
  {
    j < |e.foresters| && IsEligible(e.foresters[j], a) && IsEligible(e.foresters[j], b)
  }

  /** Every slot of the active phase has schedule entries exactly if whole light slots fill the active phase. */
  lemma EverySlotHasEntries(config: ProtocolConfig, epoch: nat)
    requires Lengths(config) && Fits(config, epoch) && config.slotLength > 0
    ensures (forall slot: nat :: HasEntries(config, epoch, slot)) <==> config.activePhaseLength % config.slotLength == 0
  {
    hide EpochStart, GetEpochPhases;
    PhasesTile(config, epoch);
    var start, n := EpochStart(config, epoch) + config.registrationPhaseLength, Entries(config);
    assert config.activePhaseLength == n * config.slotLength + config.activePhaseLength % config.slotLength;
    if config.activePhaseLength % config.slotLength == 0 {
      forall slot: nat ensures HasEntries(config, epoch, slot) {
        if Within(GetEpochPhases(config, epoch).active, slot) { BelowMultiple(slot - start, n, config.slotLength); }
      }
    } else {
      var tail := start + n * config.slotLength;
      DivIs(tail - start, config.slotLength, n);
      assert !HasEntries(config, epoch, tail);
    }
  }

  lemma BelowMultiple(x: nat, n: nat, d: nat)
    requires d > 0 && x < n * d
    ensures x / d < n
  {
    if x / d >= n { FewerSlots(n, x / d, d); }
  }

  /** A slot outside the active phase, or one whose light slot has schedule entries. */
  ghost predicate HasEntries(config: ProtocolConfig, epoch: nat, slot: nat)
    requires config.slotLength > 0
  {
    && Within(GetEpochPhases(config, epoch).active, slot)
    && slot >= EpochStart(config, epoch) + config.registrationPhaseLength
    ==> LightSlot(config, epoch, slot) < Entries(config)
  }

  /** The schedules of the foresters of an epoch. */
  method SchedulesOf(e: EpochPda, startSolanaSlot: nat, lottery: Lottery, foresters: seq<ForesterEpochPda>)
    returns (schedules: seq<seq<Option<ForesterSlot>>>)
    requires e.Valid() && e.registeredWeight > 0 && e.config.slotLength > 0 && foresters == e.foresters
    requires forall j: nat :: j < |foresters| ==> foresters[j].config == e.config
    requires startSolanaSlot + Entries(e.config) * e.config.slotLength <= U64_MAX && startSolanaSlot <= U64_MAX
    ensures AreSchedulesOf(e, startSolanaSlot, lottery, schedules)
  {
    schedules := [];
    for j := 0 to |foresters|
      invariant |schedules| == j
      invariant forall k: nat {:trigger schedules[k]} :: k < j ==>
                  IsScheduleOf(startSolanaSlot, lottery, e.registeredWeight, foresters[k], schedules[k])
    {
      var r := GetScheduleForForesterInQueue(startSolanaSlot, lottery, e.registeredWeight, foresters[j]);
      schedules := schedules + [r.value];
    }
  }

  /** Foresters of weight 1 that register for epoch 0, one slot after the other. */
  method Registered(config: ProtocolConfig, count: nat) returns (e: EpochPda, foresters: seq<ForesterEpochPda>)
    requires config.genesisSlot == 0 && config.minWeight <= 1
    requires count <= config.registrationPhaseLength < config.activePhaseLength <= U64_MAX
    ensures e.Valid() && e.epoch == 0 && e.config == config && e.registeredWeight == count
    ensures foresters == e.foresters && |foresters| == count
    ensures forall j: nat :: j < count ==>
              foresters[j] == ForesterEpochPda(0, 1, j, config.registrationPhaseLength, config)
  {
    e := new EpochPda(0, config);
    foresters := [];
    for j := 0 to count
      invariant e.Valid() && e.epoch == 0 && e.config == config && e.registeredWeight == j
      invariant fresh(e) && foresters == e.foresters && |foresters| == j
      invariant forall k: nat :: k < j ==>
                  foresters[k] == ForesterEpochPda(0, 1, k, config.registrationPhaseLength, config)
    {
      DivIs(j, config.activePhaseLength, 0);
      var r := e.RegisterForEpoch(config, 1, j);
      foresters := foresters + [r.value];
    }
  }

  /**
   Two foresters of weight 1 register, and the hash counts light slots: in light slot 1 the
   schedules name the first forester and the registry lets only the second one work.
   */
  method ScheduleMayDisagree() returns (e: EpochPda, lottery: Lottery, schedules: seq<seq<Option<ForesterSlot>>>)
    ensures e.Valid() && e.registeredWeight == 2 && e.config.slotLength > 0
    ensures AreSchedulesOf(e, 100, lottery, schedules)
    ensures Scheduled(schedules, 0, 1) && !Scheduled(schedules, 1, 1)
    ensures !MayWork(e, lottery, 110, 0) && MayWork(e, lottery, 110, 1)
  {
    hide AreSchedulesOf, Scheduled, RangesTile, RegisteredUnder;
    lottery := Lottery((epoch: nat, lightSlot: nat) => lightSlot);
    var foresters;
    e, foresters := Registered(ProtocolConfig(0, 1, 10, 100, 1000, 100), 2);
    schedules := SchedulesOf(e, 100, lottery, foresters);
    assert lottery.Draw(0, 2, 0) == 0 && lottery.Draw(1, 2, 0) == 1;
    ScheduledIf(e, 100, lottery, schedules, 0, 1);
    ScheduledIf(e, 100, lottery, schedules, 1, 1);
  }

  /**
   An active phase of 1005 slots and light slots of 10: in the incomplete light slot 100 the only
   forester may work, and no schedule has an entry for it.
   */
  method TailSlotHasNoEntry() returns (e: EpochPda, lottery: Lottery, schedules: seq<seq<Option<ForesterSlot>>>)
    ensures e.Valid() && e.registeredWeight == 1 && e.config.slotLength > 0
    ensures AreSchedulesOf(e, 100, lottery, schedules)
    ensures Within(GetEpochPhases(e.config, e.epoch).active, 1104) && MayWork(e, lottery, 1104, 0)
    ensures forall j: nat :: !Scheduled(schedules, j, 100)
  {
    hide AreSchedulesOf, Scheduled, RangesTile, RegisteredUnder;
    lottery := Lottery((epoch: nat, lightSlot: nat) => lightSlot);
    var foresters;
    e, foresters := Registered(ProtocolConfig(0, 1, 10, 100, 1005, 100), 1);
    schedules := SchedulesOf(e, 100, lottery, foresters);
    assert lottery.Draw(100, 1, 0) == 0;
    forall j: nat ensures !Scheduled(schedules, j, 100) {
      ScheduledIf(e, 100, lottery, schedules, j, 100);
    }
  }
}
