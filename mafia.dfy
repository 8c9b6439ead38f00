/**
 * The rules of the Mafia party game (`hw1/mafia.cc`).
 *
 * Players are a sequence of `(id, role, alive)` values; the Sheriff's and the
 * Doctor's memories live inside their roles. Every random choice of the
 * program (`Game::random_choice` retried until it is acceptable, and the
 * tie-break of `std::max_element` over a vote map) is a parameter whose
 * precondition says that it is one of the choices the program could make.
 */
module Mafia {
  import opened Wrappers

  /** What the Sheriff remembers between nights. */
  datatype SheriffMemory = SheriffMemory(checked: set<nat>, lastChecked: Option<nat>, hasTarget: bool)

  datatype Role =
    | Civilian
    | Mafioso
    | Sheriff(memory: SheriffMemory)
    | Doctor(lastCured: Option<nat>)
    | Maniac

  /** The dynamic type of a player, which `check_role` and `dynamic_cast` test. */
  datatype Kind = CivilianKind | MafiosoKind | SheriffKind | DoctorKind | ManiacKind

  /** The side a living player is counted on by `Game::finished`. */
  datatype Faction = Town | Mafia | Lone

  datatype Player = Player(id: nat, role: Role, alive: bool)

  /** The result of `Game::finished` together with the message it prints. */
  datatype Verdict = Drawn | CiviliansWin | ManiacWins | MafiaWins | Ongoing

  /** One player's night action: the optional target and the role's new memory. */
  datatype Outcome = Outcome(result: Option<nat>, role: Role)

  const FreshSheriff := SheriffMemory({}, None, false)

  function KindOf(r: Role): Kind
  {
    match r
    case Civilian => CivilianKind
    case Mafioso => MafiosoKind
    case Sheriff(_) => SheriffKind
    case Doctor(_) => DoctorKind
    case Maniac => ManiacKind
  }

  /**
   * `Game::finished` tests for `Maniac`, then `Mafioso`, and counts everyone
   * else as a civilian: the Sheriff and the Doctor derive from `Civilian`.
   */
  function FactionOf(r: Role): (f: Faction)
    ensures f == Town <==> r.Civilian? || r.Sheriff? || r.Doctor?
    ensures f == Mafia <==> r.Mafioso?
  {
    match r
    case Maniac => Lone
    case Mafioso => Mafia
    case _ => Town
  }

  predicate AliveAt(ps: seq<Player>, i: nat)
  {
    i < |ps| && ps[i].alive
  }

  function SetAlive(ps: seq<Player>, t: nat, alive: bool): (qs: seq<Player>)
    ensures |qs| == |ps|
    ensures forall j :: 0 <= j < |ps| ==>
      qs[j] == if j == t then ps[j].(alive := alive) else ps[j]
  {
    if t < |ps| then ps[t := ps[t].(alive := alive)] else ps
  }

  // ---------------------------------------------------------------------
  // Dealing the roles (`Game::Game`)
  // ---------------------------------------------------------------------

  /** Seat picks with no repetition, the first `n / 4` of them for the Mafiosi. */
  predicate ValidSlots(n: nat, slots: seq<nat>)
  {
    |slots| == n / 4 + 3 &&
    (forall k :: 0 <= k < |slots| ==> slots[k] < n) &&
    (forall k, l :: 0 <= k < l < |slots| ==> slots[k] != slots[l])
  }

  /** The role seat `i` receives: Mafiosi first, then Sheriff, Doctor and Maniac; Civilians elsewhere. */
  function DealtRole(n: nat, slots: seq<nat>, i: nat): Role
    requires |slots| == n / 4 + 3
  {
    if i in slots[..n / 4] then Mafioso
    else if i == slots[n / 4] then Sheriff(FreshSheriff)
    else if i == slots[n / 4 + 1] then Doctor(None)
    else if i == slots[n / 4 + 2] then Maniac
    else Civilian
  }

  function Deal(n: nat, slots: seq<nat>): seq<Player>
    requires |slots| == n / 4 + 3
  {
    seq(n, i requires 0 <= i < n => Player(i, DealtRole(n, slots, i), true))
  }

  /** The seats holding a role of kind `k`. */
  function Seats(ps: seq<Player>, k: Kind): set<nat>
  {
    set i: nat | i < |ps| && KindOf(ps[i].role) == k
  }

  /** The set of entries of `s`. */
  function Elements(s: seq<nat>): (e: set<nat>)
    ensures forall x :: x in e <==> x in s
  {
    set x | x in s
  }

  /** A sequence without repetitions has as many distinct elements as entries. */
  lemma {:induction false} DistinctSize(s: seq<nat>)
    requires forall k, l :: 0 <= k < l < |s| ==> s[k] != s[l]
    ensures |Elements(s)| == |s|
  {
    if |s| > 0 {
      var shorter := s[..|s| - 1];
      var last := s[|s| - 1];
      assert forall k, l :: 0 <= k < l < |shorter| ==> shorter[k] != shorter[l];
      DistinctSize(shorter);
      var before := Elements(shorter);
      assert last !in before by {
        forall k | 0 <= k < |shorter|
          ensures shorter[k] != last
        {
          assert s[k] != s[|s| - 1];
        }
      }
      assert s == shorter + [last];
      assert Elements(s) == before + {last};
      assert before * {last} == {};
      assert |before + {last}| == |before| + 1;
    }
  }

  /** The seat numbers `0, 1, ..., n - 1`. */
  function SeatNumbers(n: nat): (r: seq<nat>)
    ensures |r| == n && forall i :: 0 <= i < n ==> r[i] == i
  {
    seq(n, i requires 0 <= i < n => i)
  }

  lemma AllSeatsSize(n: nat)
    ensures |Elements(SeatNumbers(n))| == n
  {
    DistinctSize(SeatNumbers(n));
  }

  /** Exactly the first `n >> 2` picked seats hold Mafiosi. */
  lemma DealMafiosi(n: nat, slots: seq<nat>)
    requires ValidSlots(n, slots)
    ensures Seats(Deal(n, slots), MafiosoKind) == Elements(slots[..n / 4])
    ensures |Seats(Deal(n, slots), MafiosoKind)| == n / 4
  {
    DistinctSize(slots[..n / 4]);
  }

  /** The Sheriff, the Doctor and the Maniac each get exactly the seat picked for them. */
  lemma DealSpecials(n: nat, slots: seq<nat>)
    requires ValidSlots(n, slots)
    ensures Seats(Deal(n, slots), SheriffKind) == {slots[n / 4]}
    ensures Seats(Deal(n, slots), DoctorKind) == {slots[n / 4 + 1]}
    ensures Seats(Deal(n, slots), ManiacKind) == {slots[n / 4 + 2]}
  {
    var m := n / 4;
    assert slots[m] !in slots[..m];
    assert slots[m + 1] !in slots[..m];
    assert slots[m + 2] !in slots[..m];
  }

  /** A seat is picked exactly when it is among the Mafiosi's seats or is one of the three special seats. */
  lemma PickedSeat(n: nat, slots: seq<nat>, i: nat)
    requires ValidSlots(n, slots)
    ensures i in slots <==>
      i in slots[..n / 4] || i == slots[n / 4] || i == slots[n / 4 + 1] || i == slots[n / 4 + 2]
  {
    var m := n / 4;
    assert slots == slots[..m] + [slots[m], slots[m + 1], slots[m + 2]];
  }

  /** The Civilians' seats are the seats nobody picked. */
  lemma DealCivilianSeats(n: nat, slots: seq<nat>)
    requires ValidSlots(n, slots)
    ensures Seats(Deal(n, slots), CivilianKind) == Elements(SeatNumbers(n)) - Elements(slots)
  {
    var ps := Deal(n, slots);
    forall i: nat
      ensures i in Seats(ps, CivilianKind) <==> i in Elements(SeatNumbers(n)) - Elements(slots)
    {
      PickedSeat(n, slots, i);
      if i < n {
        assert SeatNumbers(n)[i] == i;
        assert KindOf(ps[i].role) == CivilianKind <==> i !in slots;
      } else {
        assert i !in SeatNumbers(n);
      }
    }
  }

  /** Every seat not picked holds a Civilian: `n - (n >> 2) - 3` of them. */
  lemma DealCivilians(n: nat, slots: seq<nat>)
    requires ValidSlots(n, slots)
    ensures Seats(Deal(n, slots), CivilianKind) == Elements(SeatNumbers(n)) - Elements(slots)
    ensures |Seats(Deal(n, slots), CivilianKind)| == n - n / 4 - 3
  {
    DealCivilianSeats(n, slots);
    var all := Elements(SeatNumbers(n));
    var picked := Elements(slots);
    DistinctSize(slots);
    AllSeatsSize(n);
    forall x | x in picked
      ensures x in all
    {
      assert SeatNumbers(n)[x] == x;
    }
    assert all == (all - picked) + picked;
    assert (all - picked) * picked == {};
    assert |all| == |all - picked| + |picked|;
  }

  // ---------------------------------------------------------------------
  // The end of the game (`Game::finished`)
  // ---------------------------------------------------------------------

  /** How many living players of `ps` count for faction `f`. */
  function CountAlive(ps: seq<Player>, f: Faction): nat
  {
    if |ps| == 0 then 0
    else CountAlive(ps[..|ps| - 1], f) + (if ps[|ps| - 1].alive && FactionOf(ps[|ps| - 1].role) == f then 1 else 0)
  }

  /** How many players of `ps` are alive. */
  function Living(ps: seq<Player>): nat
  {
    if |ps| == 0 then 0
    else Living(ps[..|ps| - 1]) + (if ps[|ps| - 1].alive then 1 else 0)
  }

  /** Whether a living Maniac exists, the living Mafiosi and the living civilians. */
  datatype Tally = Tally(maniacAlive: bool, mafiosi: nat, civilians: nat)

  function TallyOf(ps: seq<Player>): Tally
  {
    Tally(CountAlive(ps, Lone) > 0, CountAlive(ps, Mafia), CountAlive(ps, Town))
  }

  /** The decision of `Game::finished`, one verdict per message it can print. */
  function Judge(t: Tally): (v: Verdict)
    ensures v == Drawn <==> t.mafiosi == 0 && t.civilians == 0 && !t.maniacAlive
    ensures v == CiviliansWin <==> t.mafiosi == 0 && !t.maniacAlive && t.civilians > 0
    ensures v == ManiacWins <==> t.mafiosi == 0 && t.maniacAlive && t.civilians <= 1
    ensures v == MafiaWins <==> t.mafiosi > 0 && !t.maniacAlive && t.mafiosi >= t.civilians
    ensures t.mafiosi > 0 && t.maniacAlive ==> v == Ongoing
  {
    if t.mafiosi + t.civilians + (if t.maniacAlive then 1 else 0) == 0 then Drawn
    else if t.mafiosi == 0 then
      if !t.maniacAlive then CiviliansWin
      else if t.civilians <= 1 then ManiacWins
      else Ongoing
    else if !t.maniacAlive && t.mafiosi >= t.civilians then MafiaWins
    else Ongoing
  }

  /** Every living player is counted on exactly one side. */
  lemma {:induction false} FactionsPartition(ps: seq<Player>)
    ensures CountAlive(ps, Town) + CountAlive(ps, Mafia) + CountAlive(ps, Lone) == Living(ps)
  {
    if |ps| > 0 {
      FactionsPartition(ps[..|ps| - 1]);
    }
  }

  lemma {:induction false} NobodyLiving(ps: seq<Player>)
    ensures Living(ps) == 0 <==> forall i :: 0 <= i < |ps| ==> !ps[i].alive
  {
    if |ps| > 0 {
      var init := ps[..|ps| - 1];
      NobodyLiving(init);
      assert forall i :: 0 <= i < |init| ==> init[i] == ps[i];
    }
  }

  /** The game is drawn exactly when nobody is alive. */
  lemma DrawnIffNobodyAlive(ps: seq<Player>)
    ensures Judge(TallyOf(ps)) == Drawn <==> forall i :: 0 <= i < |ps| ==> !ps[i].alive
  {
    FactionsPartition(ps);
    NobodyLiving(ps);
  }

  /** A living Civilian, Sheriff or Doctor: the players `Game::finished` counts as civilians. */
  predicate LivingCivilian(p: Player)
  {
    p.alive && (p.role.Civilian? || p.role.Sheriff? || p.role.Doctor?)
  }

  /** The seats of the living civilians. */
  function CivilianSeats(ps: seq<Player>): (seats: set<nat>)
    ensures forall i :: i in seats ==> i < |ps|
  {
    set i: nat | i < |ps| && LivingCivilian(ps[i])
  }

  lemma CivilianSeatsStep(ps: seq<Player>)
    requires |ps| > 0
    ensures var last := |ps| - 1;
      CivilianSeats(ps) == CivilianSeats(ps[..last]) + (if LivingCivilian(ps[last]) then {last} else {})
  {
    var init := ps[..|ps| - 1];
    forall i: nat | i < |init|
      ensures init[i] == ps[i]
    {
    }
  }

  /** The civilian count is the number of living Civilians, Sheriffs and Doctors. */
  lemma {:induction false} CiviliansCounted(ps: seq<Player>)
    ensures CountAlive(ps, Town) == |CivilianSeats(ps)|
  {
    if |ps| > 0 {
      var init := ps[..|ps| - 1];
      CiviliansCounted(init);
      CivilianSeatsStep(ps);
      assert |ps| - 1 !in CivilianSeats(init);
    }
  }

  // ---------------------------------------------------------------------
  // Memories, votes and night actions
  // ---------------------------------------------------------------------

  /**
   * The Sheriff's memory is consistent with the seating: a remembered target
   * exists, the last checked player is a Mafioso (it is only recorded when
   * the check finds one) and every player in `checked` is not one.
   */
  predicate MemorySound(ps: seq<Player>, mem: SheriffMemory)
  {
    (mem.hasTarget ==> mem.lastChecked.Some?) &&
    (mem.lastChecked.Some? ==> mem.lastChecked.value < |ps| && ps[mem.lastChecked.value].role.Mafioso?) &&
    (forall c :: c in mem.checked ==> c < |ps| && !ps[c].role.Mafioso?)
  }

  predicate RoleSound(ps: seq<Player>, r: Role)
  {
    match r
    case Sheriff(mem) => MemorySound(ps, mem)
    case Doctor(lastCured) => lastCured.Some? ==> lastCured.value < |ps|
    case _ => true
  }

  predicate Sound(ps: seq<Player>)
  {
    forall i :: 0 <= i < |ps| ==> RoleSound(ps, ps[i].role)
  }

  /** The roles of a freshly dealt game are sound. */
  lemma DealSound(n: nat, slots: seq<nat>)
    requires ValidSlots(n, slots)
    ensures Sound(Deal(n, slots))
  {
  }

  /** Soundness only looks at who is a Mafioso, which the game never changes. */
  lemma RoleSoundTransfer(ps: seq<Player>, qs: seq<Player>, r: Role)
    requires |ps| == |qs|
    requires forall i :: 0 <= i < |ps| ==> KindOf(qs[i].role) == KindOf(ps[i].role)
    requires RoleSound(ps, r)
    ensures RoleSound(qs, r)
  {
    if r.Sheriff? {
      var mem := r.memory;
      if mem.lastChecked.Some? {
        assert KindOf(qs[mem.lastChecked.value].role) == KindOf(ps[mem.lastChecked.value].role);
      }
      forall c | c in mem.checked
        ensures c < |qs| && !qs[c].role.Mafioso?
      {
        assert KindOf(qs[c].role) == KindOf(ps[c].role);
      }
    }
  }

  /** Whether the Sheriff still holds a living Mafioso as its target. */
  predicate LiveTarget(ps: seq<Player>, mem: SheriffMemory)
  {
    mem.hasTarget && mem.lastChecked.Some? && AliveAt(ps, mem.lastChecked.value)
  }

  /** `Player::computer_vote`: a living player other than oneself. */
  predicate PlayerPickOk(ps: seq<Player>, me: nat, pick: nat)
  {
    AliveAt(ps, pick) && pick != me
  }

  /** `Mafioso::computer_vote`: a living player who is not a Mafioso. */
  predicate MafiosoPickOk(ps: seq<Player>, pick: nat)
  {
    AliveAt(ps, pick) && !ps[pick].role.Mafioso?
  }

  /** The Sheriff's random pick as written: a living, unchecked player other than itself. */
  predicate SheriffPickOk(ps: seq<Player>, me: nat, mem: SheriffMemory, pick: nat)
  {
    AliveAt(ps, pick) && pick !in mem.checked && pick != me
  }

  /** Every living player other than the Sheriff has already been cleared. */
  predicate AllChecked(ps: seq<Player>, me: nat, mem: SheriffMemory)
  {
    forall j :: 0 <= j < |ps| && ps[j].alive && j != me ==> j in mem.checked
  }

  /**
   * The Sheriff's random pick as corrected: an unchecked player while one is
   * left, and otherwise any living player other than itself.
   */
  predicate CorrectedSheriffPickOk(ps: seq<Player>, me: nat, mem: SheriffMemory, pick: nat)
  {
    AliveAt(ps, pick) && pick != me && (pick !in mem.checked || AllChecked(ps, me, mem))
  }

  /** `Doctor::act`: a living player not cured the night before (possibly the Doctor). */
  predicate DoctorPickOk(ps: seq<Player>, lastCured: Option<nat>, pick: nat)
  {
    AliveAt(ps, pick) && Some(pick) != lastCured
  }

  /**
   * `Sheriff::computer_vote` as written: with a target it votes for the last
   * checked player, whether or not that player is still alive.
   */
  function SheriffVoteAsWritten(ps: seq<Player>, me: nat, mem: SheriffMemory, pick: nat): (t: nat)
    requires mem.hasTarget ==> mem.lastChecked.Some?
    ensures mem.hasTarget ==> t == mem.lastChecked.value
    ensures !mem.hasTarget ==> t == pick
  {
    if mem.hasTarget then mem.lastChecked.value else pick
  }

  /**
   * `Sheriff::computer_vote` as corrected: vote for the target only while it
   * lives (the test `Sheriff::act` makes), otherwise pick like the night check.
   */
  function SheriffVote(ps: seq<Player>, me: nat, mem: SheriffMemory, pick: nat): (t: nat)
    requires me < |ps| && ps[me].role.Sheriff? && MemorySound(ps, mem)
    requires LiveTarget(ps, mem) || SheriffPickOk(ps, me, mem, pick)
    ensures AliveAt(ps, t) && t != me
    ensures LiveTarget(ps, mem) ==> t == mem.lastChecked.value && ps[t].role.Mafioso?
  {
    if LiveTarget(ps, mem) then mem.lastChecked.value else pick
  }

  /**
   * The random picks under which the day vote of player `me` terminates. A
   * Sheriff with `has_target` set draws nothing.
   */
  predicate VotePickOk(ps: seq<Player>, me: nat, pick: nat)
    requires me < |ps|
  {
    !ps[me].alive ||
    match ps[me].role
    case Mafioso => MafiosoPickOk(ps, pick)
    case Sheriff(mem) => mem.hasTarget || SheriffPickOk(ps, me, mem, pick)
    case _ => PlayerPickOk(ps, me, pick)
  }

  /** The random picks under which the corrected day vote of player `me` terminates. */
  predicate CorrectedVotePickOk(ps: seq<Player>, me: nat, pick: nat)
    requires me < |ps|
  {
    !ps[me].alive ||
    match ps[me].role
    case Mafioso => MafiosoPickOk(ps, pick)
    case Sheriff(mem) => LiveTarget(ps, mem) || SheriffPickOk(ps, me, mem, pick)
    case _ => PlayerPickOk(ps, me, pick)
  }

  /**
   * `Player::vote` for a computer player, as written: the dead do not vote
   * and nobody votes for oneself. A Mafioso votes for a living non-Mafioso,
   * every other role except a Sheriff with a target for a living player; that
   * Sheriff votes for its target, a Mafioso who may be dead.
   */
  function VoteAsWritten(ps: seq<Player>, me: nat, pick: nat): (v: Option<nat>)
    requires me < |ps| && Sound(ps) && VotePickOk(ps, me, pick)
    ensures v.None? <==> !ps[me].alive
    ensures v.Some? ==> v.value < |ps| && v.value != me
    ensures v.Some? && ps[me].role.Mafioso? ==> !ps[v.value].role.Mafioso?
    ensures v.Some? && !(ps[me].role.Sheriff? && ps[me].role.memory.hasTarget) ==> AliveAt(ps, v.value)
    ensures v.Some? && ps[me].role.Sheriff? && ps[me].role.memory.hasTarget ==>
      v == ps[me].role.memory.lastChecked && ps[v.value].role.Mafioso?
  {
    if !ps[me].alive then None
    else
      match ps[me].role
      case Sheriff(mem) =>
        assert RoleSound(ps, ps[me].role);
        Some(SheriffVoteAsWritten(ps, me, mem, pick))
      case _ => Some(pick)
  }

  /**
   * `Player::vote` with the corrected Sheriff vote: nobody votes for a dead
   * player or for oneself; a Mafioso never votes for a Mafioso.
   */
  function Vote(ps: seq<Player>, me: nat, pick: nat): (v: Option<nat>)
    requires me < |ps| && Sound(ps) && CorrectedVotePickOk(ps, me, pick)
    ensures v.None? <==> !ps[me].alive
    ensures v.Some? ==> AliveAt(ps, v.value) && v.value != me
    ensures v.Some? && ps[me].role.Mafioso? ==> !ps[v.value].role.Mafioso?
  {
    if !ps[me].alive then None
    else
      match ps[me].role
      case Sheriff(mem) => Some(SheriffVote(ps, me, mem, pick))
      case _ => Some(pick)
  }

  /**
   * `Sheriff::act` for a computer Sheriff: shoot a target that is still
   * alive; otherwise forget it and check a random player, remembering a
   * Mafioso as the next target and anyone else as cleared.
   */
  function SheriffAct(ps: seq<Player>, me: nat, mem: SheriffMemory, pick: nat): (o: Outcome)
    requires me < |ps| && ps[me].role.Sheriff? && MemorySound(ps, mem)
    requires LiveTarget(ps, mem) || SheriffPickOk(ps, me, mem, pick)
    ensures o.role.Sheriff? && MemorySound(ps, o.role.memory)
    ensures o.result.Some? <==> LiveTarget(ps, mem)
    ensures o.result.Some? ==> o.result == mem.lastChecked && o.role.memory == mem
    ensures o.result.None? ==>
      mem.checked <= o.role.memory.checked &&
      (o.role.memory.hasTarget <==> ps[pick].role.Mafioso?) &&
      (ps[pick].role.Mafioso? ==> o.role.memory.lastChecked == Some(pick)) &&
      (!ps[pick].role.Mafioso? ==> pick in o.role.memory.checked)
  {
    if LiveTarget(ps, mem) then Outcome(mem.lastChecked, Sheriff(mem))
    else
      var forgot := mem.(hasTarget := false);
      if ps[pick].role.Mafioso? then
        Outcome(None, Sheriff(forgot.(lastChecked := Some(pick), hasTarget := true)))
      else
        Outcome(None, Sheriff(forgot.(checked := forgot.checked + {pick})))
  }

  /** The random picks under which the night action of player `me` terminates. */
  predicate ActPickOk(ps: seq<Player>, me: nat, pick: nat)
    requires me < |ps|
  {
    !ps[me].alive ||
    match ps[me].role
    case Civilian => true
    case Mafioso => MafiosoPickOk(ps, pick)
    case Sheriff(mem) => LiveTarget(ps, mem) || SheriffPickOk(ps, me, mem, pick)
    case Doctor(lastCured) => DoctorPickOk(ps, lastCured, pick)
    case Maniac => PlayerPickOk(ps, me, pick)
  }

  /**
   * The `act` of each role for a computer player. A dead player does nothing;
   * a Civilian never acts; the Mafioso and the Maniac name a living victim;
   * the Sheriff shoots only a Mafioso; the Doctor never cures the same player
   * two nights running and remembers whom it cured.
   */
  function Act(ps: seq<Player>, me: nat, pick: nat): (o: Outcome)
    requires me < |ps| && Sound(ps) && ActPickOk(ps, me, pick)
    ensures !ps[me].alive ==> o == Outcome(None, ps[me].role)
    ensures KindOf(o.role) == KindOf(ps[me].role) && RoleSound(ps, o.role)
    ensures o.result.Some? ==> AliveAt(ps, o.result.value)
    ensures ps[me].role.Civilian? ==> o.result.None?
    ensures o.result.Some? && ps[me].role.Mafioso? ==> !ps[o.result.value].role.Mafioso?
    ensures o.result.Some? && ps[me].role.Sheriff? ==> ps[o.result.value].role.Mafioso?
    ensures o.result.Some? && ps[me].role.Maniac? ==> o.result.value != me
    ensures ps[me].alive && ps[me].role.Doctor? ==>
      o.result.Some? && o.result != ps[me].role.lastCured && o.role == Doctor(o.result)
  {
    if !ps[me].alive then Outcome(None, ps[me].role)
    else
      match ps[me].role
      case Civilian => Outcome(None, Civilian)
      case Mafioso => Outcome(Some(pick), Mafioso)
      case Sheriff(mem) => SheriffAct(ps, me, mem, pick)
      case Doctor(_) => Outcome(Some(pick), Doctor(Some(pick)))
      case Maniac => Outcome(Some(pick), Maniac)
  }

  // ---------------------------------------------------------------------
  // Resolving a night (`Game::start`, lines 234-285)
  // ---------------------------------------------------------------------

  predicate ActPicksOk(ps: seq<Player>, picks: seq<nat>)
  {
    |picks| == |ps| && Sound(ps) && forall i :: 0 <= i < |ps| ==> ActPickOk(ps, i, picks[i])
  }

  function Outcomes(ps: seq<Player>, picks: seq<nat>): (os: seq<Outcome>)
    requires ActPicksOk(ps, picks)
    ensures |os| == |ps|
    ensures forall i :: 0 <= i < |ps| ==> os[i] == Act(ps, i, picks[i])
    ensures forall i :: 0 <= i < |ps| ==>
      KindOf(os[i].role) == KindOf(ps[i].role) && RoleSound(ps, os[i].role)
    ensures forall i :: 0 <= i < |ps| && os[i].result.Some? ==> ps[i].alive && AliveAt(ps, os[i].result.value)
  {
    seq(|ps|, i requires 0 <= i < |ps| => Act(ps, i, picks[i]))
  }

  function Results(os: seq<Outcome>): (rs: seq<Option<nat>>)
    ensures |rs| == |os| && forall i :: 0 <= i < |os| ==> rs[i] == os[i].result
  {
    seq(|os|, i requires 0 <= i < |os| => os[i].result)
  }

  /** The Mafioso votes for `t` among the first `m` night results. */
  function MafiaVotes(ps: seq<Player>, rs: seq<Option<nat>>, t: nat, m: nat): nat
    requires m <= |ps| == |rs|
  {
    if m == 0 then 0
    else MafiaVotes(ps, rs, t, m - 1) + (if ps[m - 1].role.Mafioso? && rs[m - 1] == Some(t) then 1 else 0)
  }

  lemma {:induction false} MafiaVoteWitness(ps: seq<Player>, rs: seq<Option<nat>>, t: nat, m: nat)
    requires m <= |ps| == |rs| && MafiaVotes(ps, rs, t, m) > 0
    ensures exists i :: 0 <= i < m && ps[i].role.Mafioso? && rs[i] == Some(t)
  {
    if !(ps[m - 1].role.Mafioso? && rs[m - 1] == Some(t)) {
      MafiaVoteWitness(ps, rs, t, m - 1);
    }
  }

  /** Whether some Mafioso named a victim, so that the vote map is non-empty. */
  predicate MafiaVoted(ps: seq<Player>, rs: seq<Option<nat>>)
    requires |ps| == |rs|
  {
    exists i :: 0 <= i < |ps| && ps[i].role.Mafioso? && rs[i].Some?
  }

  /** `std::max_element` over the Mafioso votes may return `t`. */
  ghost predicate MafiaPickOk(ps: seq<Player>, rs: seq<Option<nat>>, t: nat)
    requires |ps| == |rs|
  {
    MafiaVoted(ps, rs) ==>
      MafiaVotes(ps, rs, t, |ps|) > 0 &&
      forall u :: MafiaVotes(ps, rs, u, |ps|) <= MafiaVotes(ps, rs, t, |ps|)
  }

  /** The first night result, from index `i` on, of a player of kind `k` (the `front()` of a filtered view). */
  function FirstResultOf(ps: seq<Player>, rs: seq<Option<nat>>, k: Kind, i: nat): (r: Option<nat>)
    requires |ps| == |rs| && i <= |ps|
    decreases |ps| - i
    ensures r.Some? ==> exists j :: (i <= j < |ps| && KindOf(ps[j].role) == k && rs[j] == r &&
      forall l :: i <= l < j && KindOf(ps[l].role) == k ==> rs[l].None?)
    ensures r.None? ==> forall j :: i <= j < |ps| && KindOf(ps[j].role) == k ==> rs[j].None?
  {
    if i == |ps| then None
    else if KindOf(ps[i].role) == k && rs[i].Some? then rs[i]
    else FirstResultOf(ps, rs, k, i + 1)
  }

  function Apply(ps: seq<Player>, target: Option<nat>, alive: bool): (qs: seq<Player>)
    ensures |qs| == |ps|
    ensures forall j :: 0 <= j < |ps| ==>
      qs[j] == if target == Some(j) then ps[j].(alive := alive) else ps[j]
  {
    if target.Some? then SetAlive(ps, target.value, alive) else ps
  }

  ghost predicate NightPicksOk(ps: seq<Player>, picks: seq<nat>, mafiaPick: nat)
  {
    ActPicksOk(ps, picks) && MafiaPickOk(ps, Results(Outcomes(ps, picks)), mafiaPick)
  }

  /** The players with the memories the night's actions left them. */
  function Dusk(ps: seq<Player>, os: seq<Outcome>): (qs: seq<Player>)
    requires |os| == |ps|
    ensures |qs| == |ps|
    ensures forall i :: 0 <= i < |ps| ==> qs[i] == ps[i].(role := os[i].role)
  {
    seq(|ps|, i requires 0 <= i < |ps| => ps[i].(role := os[i].role))
  }

  /** The kills and the cure of a night, in the program's order. */
  function Resolve(ps: seq<Player>, dusk: seq<Player>, rs: seq<Option<nat>>, mafiaPick: nat): seq<Player>
    requires |ps| == |rs|
  {
    var afterMafia := if MafiaVoted(ps, rs) then SetAlive(dusk, mafiaPick, false) else dusk;
    var afterManiac := Apply(afterMafia, FirstResultOf(ps, rs, ManiacKind, 0), false);
    var afterSheriff := Apply(afterManiac, FirstResultOf(ps, rs, SheriffKind, 0), false);
    Apply(afterSheriff, FirstResultOf(ps, rs, DoctorKind, 0), true)
  }

  /** The players after one night. */
  function NightOf(ps: seq<Player>, picks: seq<nat>, mafiaPick: nat): seq<Player>
    requires NightPicksOk(ps, picks, mafiaPick)
  {
    var os := Outcomes(ps, picks);
    Resolve(ps, Dusk(ps, os), Results(os), mafiaPick)
  }

  /** Whether player `j` is among the night's victims. */
  predicate KilledAtNight(ps: seq<Player>, picks: seq<nat>, mafiaPick: nat, j: nat)
    requires NightPicksOk(ps, picks, mafiaPick)
  {
    var rs := Results(Outcomes(ps, picks));
    (MafiaVoted(ps, rs) && mafiaPick == j) ||
    FirstResultOf(ps, rs, ManiacKind, 0) == Some(j) ||
    FirstResultOf(ps, rs, SheriffKind, 0) == Some(j)
  }

  /** The Doctor's patient of the night, if any. */
  function Cured(ps: seq<Player>, picks: seq<nat>, mafiaPick: nat): Option<nat>
    requires NightPicksOk(ps, picks, mafiaPick)
  {
    FirstResultOf(ps, Results(Outcomes(ps, picks)), DoctorKind, 0)
  }

  /**
   * Seat `j` after the kills and the cure: only its `alive` flag changes, and
   * it ends up alive exactly when it is cured, or it was alive and is not a
   * victim.
   */
  lemma ResolveAt(ps: seq<Player>, dusk: seq<Player>, rs: seq<Option<nat>>, mafiaPick: nat, j: nat)
    requires |ps| == |rs| == |dusk| && j < |ps|
    ensures var after := Resolve(ps, dusk, rs, mafiaPick);
      |after| == |ps| &&
      after[j] == dusk[j].(alive :=
        FirstResultOf(ps, rs, DoctorKind, 0) == Some(j) ||
        (dusk[j].alive && !(MafiaVoted(ps, rs) && mafiaPick == j) &&
         FirstResultOf(ps, rs, ManiacKind, 0) != Some(j) &&
         FirstResultOf(ps, rs, SheriffKind, 0) != Some(j)))
  {
    var afterMafia := if MafiaVoted(ps, rs) then SetAlive(dusk, mafiaPick, false) else dusk;
    assert afterMafia[j] == dusk[j].(alive := dusk[j].alive && !(MafiaVoted(ps, rs) && mafiaPick == j));
    var afterManiac := Apply(afterMafia, FirstResultOf(ps, rs, ManiacKind, 0), false);
    var afterSheriff := Apply(afterManiac, FirstResultOf(ps, rs, SheriffKind, 0), false);
    assert Resolve(ps, dusk, rs, mafiaPick) == Apply(afterSheriff, FirstResultOf(ps, rs, DoctorKind, 0), true);
  }

  /**
   * Because the cure is applied last, a player is alive after the night
   * exactly when the Doctor cured it, or it was alive and nobody killed it;
   * ids and kinds are unchanged and the roles carry their new memories.
   */
  lemma NightOutcome(ps: seq<Player>, picks: seq<nat>, mafiaPick: nat, j: nat)
    requires NightPicksOk(ps, picks, mafiaPick) && j < |ps|
    ensures var after := NightOf(ps, picks, mafiaPick);
      |after| == |ps| &&
      after[j].id == ps[j].id &&
      after[j].role == Act(ps, j, picks[j]).role &&
      (after[j].alive <==>
        Cured(ps, picks, mafiaPick) == Some(j) ||
        (ps[j].alive && !KilledAtNight(ps, picks, mafiaPick, j)))
  {
    var os := Outcomes(ps, picks);
    var rs := Results(os);
    var dusk := Dusk(ps, os);
    ResolveAt(ps, dusk, rs, mafiaPick, j);
    assert dusk[j] == ps[j].(role := os[j].role);
  }

  /** Nobody comes back to life at night: the Doctor only cures a living player. */
  lemma NightNeverRevives(ps: seq<Player>, picks: seq<nat>, mafiaPick: nat, j: nat)
    requires NightPicksOk(ps, picks, mafiaPick) && j < |ps|
    ensures NightOf(ps, picks, mafiaPick)[j].alive ==> ps[j].alive
  {
    NightOutcome(ps, picks, mafiaPick, j);
    var os := Outcomes(ps, picks);
    var rs := Results(os);
    var cured := FirstResultOf(ps, rs, DoctorKind, 0);
    if cured == Some(j) {
      var d :| 0 <= d < |ps| && KindOf(ps[d].role) == DoctorKind && rs[d] == cured;
      assert os[d] == Act(ps, d, picks[d]);
    }
  }

  /** The Doctor's patient is alive at the end of the night. */
  lemma CuredSurvives(ps: seq<Player>, picks: seq<nat>, mafiaPick: nat)
    requires NightPicksOk(ps, picks, mafiaPick)
    ensures var c := Cured(ps, picks, mafiaPick);
      c.Some? ==> c.value < |ps| && NightOf(ps, picks, mafiaPick)[c.value].alive
  {
    var os := Outcomes(ps, picks);
    var rs := Results(os);
    var c := Cured(ps, picks, mafiaPick);
    if c.Some? {
      var d :| 0 <= d < |ps| && KindOf(ps[d].role) == DoctorKind && rs[d] == c;
      assert os[d] == Act(ps, d, picks[d]);
      NightOutcome(ps, picks, mafiaPick, c.value);
    }
  }

  /** The mafia kills only when a Mafioso named someone, and never kills a Mafioso. */
  lemma MafiaVictim(ps: seq<Player>, picks: seq<nat>, mafiaPick: nat)
    requires NightPicksOk(ps, picks, mafiaPick)
    ensures var rs := Results(Outcomes(ps, picks));
      MafiaVoted(ps, rs) ==> AliveAt(ps, mafiaPick) && !ps[mafiaPick].role.Mafioso?
  {
    var os := Outcomes(ps, picks);
    var rs := Results(os);
    if MafiaVoted(ps, rs) {
      MafiaVoteWitness(ps, rs, mafiaPick, |ps|);
      var i :| 0 <= i < |ps| && ps[i].role.Mafioso? && rs[i] == Some(mafiaPick);
      assert os[i] == Act(ps, i, picks[i]);
    }
  }

  /** The night keeps every memory sound. */
  lemma NightSound(ps: seq<Player>, picks: seq<nat>, mafiaPick: nat)
    requires NightPicksOk(ps, picks, mafiaPick)
    ensures Sound(NightOf(ps, picks, mafiaPick))
  {
    var after := NightOf(ps, picks, mafiaPick);
    forall j | 0 <= j < |ps|
      ensures KindOf(after[j].role) == KindOf(ps[j].role)
    {
      NightOutcome(ps, picks, mafiaPick, j);
    }
    forall j | 0 <= j < |ps|
      ensures RoleSound(after, after[j].role)
    {
      NightOutcome(ps, picks, mafiaPick, j);
      RoleSoundTransfer(ps, after, after[j].role);
    }
  }

  // ---------------------------------------------------------------------
  // The day vote (`Game::start`, lines 207-222)
  // ---------------------------------------------------------------------

  predicate VotePicksOk(ps: seq<Player>, picks: seq<nat>)
  {
    |picks| == |ps| && Sound(ps) && forall i :: 0 <= i < |ps| ==> VotePickOk(ps, i, picks[i])
  }

  /**
   * The day's votes as the program casts them: only the living vote, nobody
   * votes for oneself, and every vote names a living player except that of a
   * Sheriff holding a target, which names that target.
   */
  function VotesAsWritten(ps: seq<Player>, picks: seq<nat>): (vs: seq<Option<nat>>)
    requires VotePicksOk(ps, picks)
    ensures |vs| == |ps|
    ensures forall i :: 0 <= i < |ps| ==> vs[i] == VoteAsWritten(ps, i, picks[i])
    ensures forall i :: 0 <= i < |ps| ==> (vs[i].Some? <==> ps[i].alive)
    ensures forall i :: 0 <= i < |ps| && vs[i].Some? ==> vs[i].value < |ps| && vs[i].value != i
    ensures forall i :: 0 <= i < |ps| && vs[i].Some? && !AliveAt(ps, vs[i].value) ==>
      ps[i].role.Sheriff? && vs[i] == ps[i].role.memory.lastChecked
  {
    seq(|ps|, i requires 0 <= i < |ps| => VoteAsWritten(ps, i, picks[i]))
  }

  predicate CorrectedVotePicksOk(ps: seq<Player>, picks: seq<nat>)
  {
    |picks| == |ps| && Sound(ps) && forall i :: 0 <= i < |ps| ==> CorrectedVotePickOk(ps, i, picks[i])
  }

  /** The day's votes with the corrected Sheriff: each is cast by a living player for another living player. */
  function Votes(ps: seq<Player>, picks: seq<nat>): (vs: seq<Option<nat>>)
    requires CorrectedVotePicksOk(ps, picks)
    ensures |vs| == |ps|
    ensures forall i :: 0 <= i < |ps| ==> vs[i] == Vote(ps, i, picks[i])
    ensures forall i :: 0 <= i < |ps| ==> (vs[i].Some? <==> ps[i].alive)
    ensures forall i :: 0 <= i < |ps| && vs[i].Some? ==> AliveAt(ps, vs[i].value) && vs[i].value != i
  {
    seq(|ps|, i requires 0 <= i < |ps| => Vote(ps, i, picks[i]))
  }

  /** The votes against `t` among the first `m` votes. */
  function VotesAgainst(vs: seq<Option<nat>>, t: nat, m: nat): nat
    requires m <= |vs|
  {
    if m == 0 then 0 else VotesAgainst(vs, t, m - 1) + (if vs[m - 1] == Some(t) then 1 else 0)
  }

  lemma {:induction false} VoteWitness(vs: seq<Option<nat>>, t: nat, m: nat)
    requires m <= |vs| && VotesAgainst(vs, t, m) > 0
    ensures exists i :: 0 <= i < m && vs[i] == Some(t)
  {
    if vs[m - 1] != Some(t) {
      VoteWitness(vs, t, m - 1);
    }
  }

  /** `std::max_element` over a non-empty vote map may return `kick`. */
  ghost predicate KickOk(vs: seq<Option<nat>>, kick: nat)
  {
    VotesAgainst(vs, kick, |vs|) > 0 &&
    forall u :: VotesAgainst(vs, u, |vs|) <= VotesAgainst(vs, kick, |vs|)
  }

  /**
   * As written, the player kicked out by day is a seat someone voted for; it
   * is dead at nightfall only if a Sheriff's target voted it out.
   */
  lemma DayKicksVotedPlayer(ps: seq<Player>, picks: seq<nat>, kick: nat)
    requires VotePicksOk(ps, picks) && KickOk(VotesAsWritten(ps, picks), kick)
    ensures kick < |ps|
    ensures !ps[kick].alive ==> exists i :: (0 <= i < |ps| && ps[i].alive && ps[i].role.Sheriff? &&
      ps[i].role.memory.lastChecked == Some(kick))
  {
    var vs := VotesAsWritten(ps, picks);
    VoteWitness(vs, kick, |vs|);
    var i :| 0 <= i < |vs| && vs[i] == Some(kick);
    assert ps[i].alive;
  }

  /**
   * As written, the day can kick out a dead player: a Sheriff whose target
   * died votes for it, and a three-way tie lets `max_element` pick it. Five
   * players reach this table: day 1 kicks the Civilian; on night 1 the
   * Sheriff checks the Mafioso, the Mafioso targets the Doctor, the Doctor
   * cures itself and the Maniac kills the Mafioso.
   */
  lemma DayMayKickTheDead()
    ensures var mem := SheriffMemory({}, Some(1), true);
      var ps := [Player(0, Sheriff(mem), true), Player(1, Mafioso, false),
                 Player(2, Doctor(Some(2)), true), Player(3, Maniac, true),
                 Player(4, Civilian, false)];
      var picks := [0, 0, 3, 2, 0];
      Sound(ps) && Judge(TallyOf(ps)) == Ongoing &&
      VotePicksOk(ps, picks) && KickOk(VotesAsWritten(ps, picks), 1) && !ps[1].alive
  {
    var mem := SheriffMemory({}, Some(1), true);
    var ps := [Player(0, Sheriff(mem), true), Player(1, Mafioso, false),
               Player(2, Doctor(Some(2)), true), Player(3, Maniac, true),
               Player(4, Civilian, false)];
    var picks := [0, 0, 3, 2, 0];
    assert ps[..4][..3] == ps[..3];
    assert ps[..3][..2] == ps[..2] && ps[..2][..1] == ps[..1] && ps[..1][..0] == [];
    forall f
      ensures CountAlive(ps, f) == if f == Town then 2 else if f == Lone then 1 else 0
    {
      assert CountAlive(ps[..1], f) == if f == Town then 1 else 0;
      assert CountAlive(ps[..2], f) == if f == Town then 1 else 0;
      assert CountAlive(ps[..3], f) == if f == Town then 2 else 0;
      assert CountAlive(ps[..4], f) == if f == Town then 2 else if f == Lone then 1 else 0;
    }
    assert VotePicksOk(ps, picks);
    var vs := VotesAsWritten(ps, picks);
    assert vs[0] == Some(1) && vs[1] == None && vs[2] == Some(3) && vs[3] == Some(2) && vs[4] == None;
    forall u
      ensures VotesAgainst(vs, u, |vs|) == if u == 1 || u == 2 || u == 3 then 1 else 0
    {
      assert VotesAgainst(vs, u, 1) == if u == 1 then 1 else 0;
      assert VotesAgainst(vs, u, 2) == if u == 1 then 1 else 0;
      assert VotesAgainst(vs, u, 3) == if u == 1 || u == 3 then 1 else 0;
      assert VotesAgainst(vs, u, 4) == if u == 1 || u == 2 || u == 3 then 1 else 0;
    }
  }

  /** With the corrected Sheriff, the player kicked out by day was alive: every vote is against a living player. */
  lemma DayKicksLivingPlayer(ps: seq<Player>, picks: seq<nat>, kick: nat)
    requires CorrectedVotePicksOk(ps, picks) && KickOk(Votes(ps, picks), kick)
    ensures AliveAt(ps, kick)
    ensures var after := SetAlive(ps, kick, false);
      !after[kick].alive && forall j :: 0 <= j < |ps| && j != kick ==> after[j] == ps[j]
  {
    var vs := Votes(ps, picks);
    VoteWitness(vs, kick, |vs|);
    var i :| 0 <= i < |vs| && vs[i] == Some(kick);
  }

  /**
   * As written, the Sheriff's check never ends once every other living
   * player is cleared: the Maniac is not a Mafioso, so it is cleared like a
   * civilian, and with the Mafia dead the game goes on while the Sheriff, the
   * Doctor and the Maniac live. Six players reach this table: day 1 kicks the
   * Mafioso; night 1 the Doctor cures the Maniac's victim and the Sheriff
   * clears the Maniac; day 2 kicks a Civilian; night 2 the Doctor cures
   * itself against the Maniac and the Sheriff clears the Doctor; day 3 kicks
   * the other Civilian, and night 3 the check never ends.
   */
  lemma SheriffCheckStuck()
    ensures var mem := SheriffMemory({1, 2}, None, false);
      var ps := [Player(0, Sheriff(mem), true), Player(1, Doctor(Some(1)), true),
                 Player(2, Maniac, true), Player(3, Mafioso, false),
                 Player(4, Civilian, false), Player(5, Civilian, false)];
      Sound(ps) && Judge(TallyOf(ps)) == Ongoing &&
      !LiveTarget(ps, mem) && (forall pick :: !SheriffPickOk(ps, 0, mem, pick)) &&
      CorrectedSheriffPickOk(ps, 0, mem, 1)
  {
    var mem := SheriffMemory({1, 2}, None, false);
    var ps := [Player(0, Sheriff(mem), true), Player(1, Doctor(Some(1)), true),
               Player(2, Maniac, true), Player(3, Mafioso, false),
               Player(4, Civilian, false), Player(5, Civilian, false)];
    assert ps[..5][..4] == ps[..4] && ps[..4][..3] == ps[..3];
    assert ps[..3][..2] == ps[..2] && ps[..2][..1] == ps[..1] && ps[..1][..0] == [];
    forall f
      ensures CountAlive(ps, f) == if f == Town then 2 else if f == Lone then 1 else 0
    {
      assert CountAlive(ps[..1], f) == if f == Town then 1 else 0;
      assert CountAlive(ps[..2], f) == if f == Town then 2 else 0;
      assert CountAlive(ps[..3], f) == if f == Town then 2 else if f == Lone then 1 else 0;
      assert CountAlive(ps[..4], f) == if f == Town then 2 else if f == Lone then 1 else 0;
      assert CountAlive(ps[..5], f) == if f == Town then 2 else if f == Lone then 1 else 0;
    }
  }

  /** Some player other than `me` is alive when at least two are. */
  lemma {:induction false} AnotherLiving(ps: seq<Player>, me: nat)
    requires Living(ps) >= 2
    ensures exists j :: 0 <= j < |ps| && ps[j].alive && j != me
  {
    var init := ps[..|ps| - 1];
    if ps[|ps| - 1].alive && |ps| - 1 != me {
    } else {
      assert Living(init) >= 1;
      if Living(init) >= 2 {
        AnotherLiving(init, me);
        var j :| 0 <= j < |init| && init[j].alive && j != me;
        assert ps[j] == init[j];
      } else {
        assert ps[|ps| - 1].alive;
        NobodyLiving(init);
        var j :| 0 <= j < |init| && init[j].alive;
        assert ps[j] == init[j];
        assert j != me;
      }
    }
  }

  /**
   * The corrected check always has a pick in a game that goes on, and it
   * allows exactly the program's picks whenever an unchecked player is left.
   */
  lemma CorrectedSheriffCanPick(ps: seq<Player>, me: nat, mem: SheriffMemory)
    requires Judge(TallyOf(ps)) == Ongoing
    ensures exists pick :: CorrectedSheriffPickOk(ps, me, mem, pick)
    ensures !AllChecked(ps, me, mem) ==>
      forall pick :: CorrectedSheriffPickOk(ps, me, mem, pick) <==> SheriffPickOk(ps, me, mem, pick)
  {
    FactionsPartition(ps);
    AnotherLiving(ps, me);
    var j :| 0 <= j < |ps| && ps[j].alive && j != me;
    if AllChecked(ps, me, mem) {
      assert CorrectedSheriffPickOk(ps, me, mem, j);
    } else {
      var k :| 0 <= k < |ps| && ps[k].alive && k != me && k !in mem.checked;
      assert CorrectedSheriffPickOk(ps, me, mem, k);
    }
  }

  /**
   * As written, a Sheriff that shot its target keeps `has_target`; unless the
   * Doctor cured the target, the Sheriff's next day vote is for a dead player.
   */
  lemma SheriffVotesForTheDead(ps: seq<Player>, picks: seq<nat>, mafiaPick: nat, s: nat, pick: nat)
    requires NightPicksOk(ps, picks, mafiaPick) && s < |ps|
    requires ps[s].alive && ps[s].role.Sheriff? && LiveTarget(ps, ps[s].role.memory)
    requires Seats(ps, SheriffKind) == {s}
    requires Cured(ps, picks, mafiaPick) != ps[s].role.memory.lastChecked
    ensures var after := NightOf(ps, picks, mafiaPick);
      var t := ps[s].role.memory.lastChecked.value;
      t < |after| && !after[t].alive &&
      after[s].role == ps[s].role &&
      (after[s].alive && Sound(after) ==>
        VoteAsWritten(after, s, pick) == Some(t))
  {
    var os := Outcomes(ps, picks);
    var rs := Results(os);
    var t := ps[s].role.memory.lastChecked.value;
    assert os[s] == Act(ps, s, picks[s]);
    var shot := FirstResultOf(ps, rs, SheriffKind, 0);
    assert shot.Some? by {
      assert KindOf(ps[s].role) == SheriffKind && rs[s].Some?;
    }
    var z :| 0 <= z < |ps| && KindOf(ps[z].role) == SheriffKind && rs[z] == shot;
    assert z in Seats(ps, SheriffKind);
    NightOutcome(ps, picks, mafiaPick, s);
    NightOutcome(ps, picks, mafiaPick, t);
  }

  /** `votes` maps every player who received a vote to the number of votes against it. */
  ghost predicate Tallies(vs: seq<Option<nat>>, votes: map<nat, nat>)
  {
    forall u :: (u in votes <==> VotesAgainst(vs, u, |vs|) > 0) &&
      (u in votes ==> votes[u] == VotesAgainst(vs, u, |vs|))
  }

  /** The day's voting loop: each living player votes, and `++votes[vote]` tallies the vote. */
  method CountVotes(ps: seq<Player>, picks: seq<nat>) returns (votes: map<nat, nat>)
    requires VotePicksOk(ps, picks)
    ensures Tallies(VotesAsWritten(ps, picks), votes)
  {
    ghost var vs := VotesAsWritten(ps, picks);
    votes := map[];
    for i := 0 to |ps|
      invariant forall u :: ((u in votes <==> VotesAgainst(vs, u, i) > 0) &&
        (u in votes ==> votes[u] == VotesAgainst(vs, u, i)))
    {
      var v := VoteAsWritten(ps, i, picks[i]);
      assert v == vs[i];
      ghost var before := votes;
      if v.Some? {
        votes := votes[v.value := (if v.value in votes then votes[v.value] else 0) + 1];
      }
      forall u
        ensures VotesAgainst(vs, u, i + 1) == VotesAgainst(vs, u, i) + (if v == Some(u) then 1 else 0)
        ensures u in votes <==> VotesAgainst(vs, u, i + 1) > 0
        ensures u in votes ==> votes[u] == VotesAgainst(vs, u, i + 1)
      {
        if v == Some(u) {
          assert votes[u] == (if u in before then before[u] else 0) + 1;
        } else {
          assert (u in votes <==> u in before) && (u in votes ==> votes[u] == before[u]);
        }
      }
    }
  }

  // ---------------------------------------------------------------------
  // The game object
  // ---------------------------------------------------------------------

  class Game {
    var players: seq<Player>
    var day: nat

    /**
     * `Game::Game`: seats `slots[..n / 4]` become Mafiosi, then one seat each
     * for the Sheriff, the Doctor and the Maniac; every other seat becomes a
     * Civilian, and every player learns its seat number.
     */
    constructor (n: nat, slots: seq<nat>)
      requires ValidSlots(n, slots)
      ensures players == Deal(n, slots) && day == 0
    {
      var seated: seq<Option<Role>> := seq(n, _ => None);
      for i := 0 to n / 4
        invariant |seated| == n
        invariant forall j :: 0 <= j < n ==>
          seated[j] == if j in slots[..i] then Some(Mafioso) else None
      {
        seated := seated[slots[i] := Some(Mafioso)];
        assert slots[..i + 1] == slots[..i] + [slots[i]];
      }
      assert slots[n / 4] !in slots[..n / 4];
      seated := seated[slots[n / 4] := Some(Sheriff(FreshSheriff))];
      assert slots[n / 4 + 1] !in slots[..n / 4];
      seated := seated[slots[n / 4 + 1] := Some(Doctor(None))];
      assert slots[n / 4 + 2] !in slots[..n / 4];
      seated := seated[slots[n / 4 + 2] := Some(Maniac)];
      var ps: seq<Player> := [];
      for cur := 0 to n
        invariant ps == Deal(n, slots)[..cur]
      {
        var role := if seated[cur].Some? then seated[cur].value else Civilian;
        ps := ps + [Player(cur, role, true)];
      }
      players := ps;
      day := 0;
    }

    /** `Game::finished`: count the living players by side, then decide. */
    method Finished() returns (ans: bool, verdict: Verdict)
      ensures verdict == Judge(TallyOf(players))
      ensures ans <==> verdict != Ongoing
    {
      var maniacAlive := false;
      var mafiosoCount := 0;
      var civilianCount := 0;
      for i := 0 to |players|
        invariant maniacAlive <==> CountAlive(players[..i], Lone) > 0
        invariant mafiosoCount == CountAlive(players[..i], Mafia)
        invariant civilianCount == CountAlive(players[..i], Town)
      {
        assert players[..i + 1][..i] == players[..i];
        var pl := players[i];
        if pl.alive {
          if pl.role.Maniac? {
            maniacAlive := true;
          } else if pl.role.Mafioso? {
            mafiosoCount := mafiosoCount + 1;
          } else {
            civilianCount := civilianCount + 1;
          }
        }
      }
      assert players[..|players|] == players;
      if mafiosoCount + civilianCount + (if maniacAlive then 1 else 0) == 0 {
        verdict := Drawn;
      } else if mafiosoCount == 0 {
        if !maniacAlive {
          verdict := CiviliansWin;
        } else if civilianCount <= 1 {
          verdict := ManiacWins;
        } else {
          verdict := Ongoing;
        }
      } else if !maniacAlive && mafiosoCount >= civilianCount {
        verdict := MafiaWins;
      } else {
        verdict := Ongoing;
      }
      ans := verdict != Ongoing;
    }

    /**
     * A day: every living player votes, and a player with the most votes is
     * kicked out; the tally of the votes is returned.
     */
    method Day(picks: seq<nat>, kick: nat) returns (votes: map<nat, nat>)
      requires VotePicksOk(players, picks) && KickOk(VotesAsWritten(players, picks), kick)
      modifies this
      ensures Tallies(VotesAsWritten(old(players), picks), votes)
      ensures kick in votes && forall u :: u in votes ==> votes[u] <= votes[kick]
      ensures day == old(day) + 1
      ensures players == SetAlive(old(players), kick, false)
    {
      day := day + 1;
      votes := CountVotes(players, picks);
      players := SetAlive(players, kick, false);
    }

    /**
     * A night: every player acts on the state at nightfall and keeps its new
     * memory; then the mafia's choice is killed, then the Maniac's victim,
     * then the Sheriff's, and last the Doctor's patient is cured.
     */
    method Night(picks: seq<nat>, mafiaPick: nat)
      requires NightPicksOk(players, picks, mafiaPick)
      modifies this
      ensures day == old(day)
      ensures players == NightOf(old(players), picks, mafiaPick)
    {
      var ps := players;
      var rs: seq<Option<nat>> := [];
      for i := 0 to |ps|
        invariant day == old(day)
        invariant |players| == |ps|
        invariant rs == Results(Outcomes(ps, picks))[..i]
        invariant forall j :: 0 <= j < |ps| ==>
          players[j] == if j < i then ps[j].(role := Act(ps, j, picks[j]).role) else ps[j]
      {
        var o := Act(ps, i, picks[i]);
        rs := rs + [o.result];
        players := players[i := players[i].(role := o.role)];
      }
      assert rs == Results(Outcomes(ps, picks));
      assert players == Dusk(ps, Outcomes(ps, picks));
      ghost var dusk := players;
      if MafiaVoted(ps, rs) {
        players := SetAlive(players, mafiaPick, false);
      }
      assert players == if MafiaVoted(ps, rs) then SetAlive(dusk, mafiaPick, false) else dusk;
      players := Apply(players, FirstResultOf(ps, rs, ManiacKind, 0), false);
      players := Apply(players, FirstResultOf(ps, rs, SheriffKind, 0), false);
      players := Apply(players, FirstResultOf(ps, rs, DoctorKind, 0), true);
      assert players == Resolve(ps, dusk, rs, mafiaPick);
      assert NightOf(ps, picks, mafiaPick) == Resolve(ps, Dusk(ps, Outcomes(ps, picks)), Results(Outcomes(ps, picks)), mafiaPick);
    }
  }
}
