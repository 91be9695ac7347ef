/**
 * The eligibility domains of the six per-day decision variables, and the
 * `id_to_surgeon` lookup the scheduler performs on domain values.
 */
module Domains {
  import opened Wrappers
  import opened CallLevels

  /** The value a decision variable takes when its slot is left empty. */
  const Unassigned: int := -1

  /** Surgeon ids are unique (the table's primary key) and never the sentinel. */
  predicate WellFormedRoster(roster: seq<Surgeon>)
  {
    && (forall i, j :: 0 <= i < j < |roster| ==> roster[i].id != roster[j].id)
    && (forall i :: 0 <= i < |roster| ==> roster[i].id != Unassigned)
  }

  /** Whether a surgeon may fill a level: 2A is open to holders of 2A or 2B, every other level to its own code. */
  predicate Eligible(s: Surgeon, l: Level)
  {
    match l
    case L2A => "2A" in Codes(s) || "2B" in Codes(s)
    case _ => Code(l) in Codes(s)
  }

  /** The comprehension `[s["id"] for s in surgeons if <eligible>]`, in roster order. */
  function EligibleIds(roster: seq<Surgeon>, l: Level): (ids: seq<int>)
    ensures |ids| <= |roster|
    ensures forall id :: id in ids <==> exists s <- roster :: s.id == id && Eligible(s, l)
  {
    if roster == [] then []
    else
      var rest := EligibleIds(roster[1..], l);
      assert forall s <- roster :: s == roster[0] || s in roster[1..];
      if Eligible(roster[0], l) then [roster[0].id] + rest else rest
  }

  /** 1B and 2B may always stay empty; the other levels only when nobody is eligible. */
  predicate Optional(l: Level)
  {
    l == L1B || l == L2B
  }

  /** `domain_1A` … `domain_4`. */
  function Domain(roster: seq<Surgeon>, l: Level): (dom: seq<int>)
    ensures dom != []
    ensures forall id :: id in dom <==>
              || (id == Unassigned && (Optional(l) || EligibleIds(roster, l) == []))
              || (exists s <- roster :: s.id == id && Eligible(s, l))
  {
    var ids := EligibleIds(roster, l);
    if Optional(l) then
      if ids != [] then ids + [Unassigned] else [Unassigned]
    else
      if ids == [] then [Unassigned] else ids
  }

  /** A level that must be filled every day: one of 1A, 2A, 3, 4 whose domain is not just the sentinel. */
  predicate Forced(roster: seq<Surgeon>, l: Level)
  {
    !Optional(l) && Domain(roster, l) != [Unassigned]
  }

  /** The 1B and 2B domains always admit the empty slot. */
  lemma OptionalDomainsAdmitEmpty(roster: seq<Surgeon>, l: Level)
    requires Optional(l)
    ensures Unassigned in Domain(roster, l)
  {
  }

  /**
   * The 1A, 2A, 3 and 4 domains admit the empty slot exactly when they are
   * the sentinel alone, which happens exactly when nobody is eligible.
   */
  lemma ForcedDomainSentinel(roster: seq<Surgeon>, l: Level)
    requires WellFormedRoster(roster)
    requires !Optional(l)
    ensures Unassigned in Domain(roster, l) <==> Domain(roster, l) == [Unassigned]
    ensures Domain(roster, l) == [Unassigned] <==> forall s <- roster :: !Eligible(s, l)
  {
    var ids := EligibleIds(roster, l);
    assert Domain(roster, l) == if ids == [] then [Unassigned] else ids;
    if ids != [] {
      assert ids[0] in ids;
      assert Unassigned !in ids;
      assert Domain(roster, l) != [Unassigned];
    } else {
      forall s <- roster ensures !Eligible(s, l) {
        assert s.id !in ids;
      }
    }
  }

  /** A surgeon qualified for 2B but not 2A lies in both the 2A and the 2B domain. */
  lemma SupervisorInBothLevel2Domains(roster: seq<Surgeon>, s: Surgeon)
    requires s in roster
    requires "2B" in Codes(s) && "2A" !in Codes(s)
    ensures s.id in Domain(roster, L2A) && s.id in Domain(roster, L2B)
  {
  }

  /** With unique ids, a surgeon lies in a level's domain exactly when eligible for it. */
  lemma DomainMember(roster: seq<Surgeon>, s: Surgeon, l: Level)
    requires WellFormedRoster(roster) && s in roster
    ensures s.id in Domain(roster, l) <==> Eligible(s, l)
  {
    if s.id in Domain(roster, l) {
      var t :| t in roster && t.id == s.id && Eligible(t, l);
      var i :| 0 <= i < |roster| && roster[i] == s;
      var j :| 0 <= j < |roster| && roster[j] == t;
      assert i == j;
    }
  }

  /**
   * `id_to_surgeon[id]`: the dictionary built from the roster, where a later
   * entry replaces an earlier one with the same id; `None` where Python raises KeyError.
   */
  function Lookup(roster: seq<Surgeon>, id: int): (r: Option<Surgeon>)
    ensures r.Some? <==> exists s <- roster :: s.id == id
    ensures r.Some? ==> r.value in roster && r.value.id == id
  {
    if roster == [] then None
    else if roster[|roster| - 1].id == id then Some(roster[|roster| - 1])
    else
      var r := Lookup(roster[..|roster| - 1], id);
      assert forall s <- roster :: s == roster[|roster| - 1] || s in roster[..|roster| - 1];
      r
  }

  /** With unique ids, the lookup finds the one surgeon holding the id. */
  lemma LookupUnique(roster: seq<Surgeon>, s: Surgeon)
    requires WellFormedRoster(roster) && s in roster
    ensures Lookup(roster, s.id) == Some(s)
  {
    var t := Lookup(roster, s.id).value;
    var i :| 0 <= i < |roster| && roster[i] == s;
    var j :| 0 <= j < |roster| && roster[j] == t;
    assert i == j;
  }

  /** `get_level2_group(id_to_surgeon[id])`, with `None` for an unknown id. */
  function GroupOf(roster: seq<Surgeon>, id: int): Option<SupervisionGroup>
  {
    match Lookup(roster, id)
    case Some(s) => Level2Group(s)
    case None => None
  }

  /**
   * The 2A domain holds exactly the surgeons that have a level-2 group, and
   * the 2B domain exactly the self-sufficient and supervisor-only ones: a
   * surgeon who needs supervision can never supervise.
   */
  lemma Level2DomainsByGroup(roster: seq<Surgeon>, s: Surgeon)
    requires WellFormedRoster(roster) && s in roster
    ensures s.id in Domain(roster, L2A) <==> Level2Group(s).Some?
    ensures s.id in Domain(roster, L2B) <==> Level2Group(s) in {Some(SelfSufficient), Some(SupervisorOnly)}
    ensures GroupOf(roster, s.id) == Level2Group(s)
  {
    DomainMember(roster, s, L2A);
    DomainMember(roster, s, L2B);
    LookupUnique(roster, s);
  }

  /** A surgeon qualified only for 1A (not 1B) is never in the 1B domain. */
  lemma NoOneAInOneBDomain(roster: seq<Surgeon>, s: Surgeon)
    requires WellFormedRoster(roster) && s in roster
    requires "1B" !in Codes(s)
    ensures s.id !in Domain(roster, L1B)
  {
    DomainMember(roster, s, L1B);
  }
}
