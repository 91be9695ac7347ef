/**
 * Call levels and surgeons: the six call-level codes, the comma-separated
 * `call_levels` text a surgeon record stores (`parse_call_levels`), and the
 * level-2 supervision group derived from it (`get_level2_group`).
 */
module CallLevels {
  import opened Wrappers
  import opened Text

  /** The six on-call duty slots of a day. */
  datatype Level = L1A | L1B | L2A | L2B | L3 | L4

  /** The code under which a level is stored and displayed. */
  function Code(l: Level): string
  {
    match l
    case L1A => "1A"
    case L1B => "1B"
    case L2A => "2A"
    case L2B => "2B"
    case L3 => "3"
    case L4 => "4"
  }

  /** The order in which the scheduler enumerates levels (`all_levels`). */
  const AllLevels: seq<Level> := [L1A, L1B, L2A, L2B, L3, L4]

  /** Every level occurs in the enumeration, exactly once. */
  lemma AllLevelsComplete(l: Level)
    ensures l in AllLevels
    ensures forall i, j :: 0 <= i < j < |AllLevels| ==> AllLevels[i] != AllLevels[j]
  {
    var i := match l
      case L1A => 0
      case L1B => 1
      case L2A => 2
      case L2B => 3
      case L3 => 4
      case L4 => 5;
    assert AllLevels[i] == l;
  }

  /** A surgeon record: database id, display name and the stored `call_levels` text. */
  datatype Surgeon = Surgeon(id: int, name: string, callLevels: string)

  /** `parse_call_levels`: `None` or `""` give no codes; otherwise the stripped, non-empty comma-separated pieces. */
  function ParseCallLevels(s: Option<string>): (codes: seq<string>)
    ensures s == None || s == Some("") ==> codes == []
    ensures forall c <- codes :: c != "" && IsTrimmed(c) && ',' !in c
    ensures s.Some? && s.value != "" ==>
              forall c :: c in codes <==> c != "" && exists p <- SplitOn(s.value, ',') :: Strip(p) == c
  {
    match s
    case None => []
    case Some(str) =>
      if str == "" then []
      else
        var parts := SplitOn(str, ',');
        var codes := KeepStripped(parts);
        assert forall c <- codes :: ',' !in c by {
          forall c <- codes ensures ',' !in c {
            var p :| p in parts && c == Strip(p);
            if ',' in c {
              StripChars(p, ',');
            }
          }
        }
        codes
  }

  /** The comprehension `[p.strip() for p in parts if p.strip()]`. */
  function KeepStripped(parts: seq<string>): (codes: seq<string>)
    ensures |codes| <= |parts|
    ensures forall c <- codes :: c != "" && IsTrimmed(c) && exists p <- parts :: c == Strip(p)
    ensures forall p <- parts :: Strip(p) != "" ==> Strip(p) in codes
  {
    if parts == [] then []
    else
      var rest := KeepStripped(parts[1..]);
      var c := Strip(parts[0]);
      if c != "" then [c] + rest else rest
  }

  /** Keeping the stripped pieces of already trimmed, non-empty pieces keeps them all, in order. */
  lemma {:induction false} KeepStrippedTrimmed(parts: seq<string>)
    requires forall p <- parts :: p != "" && IsTrimmed(p)
    ensures KeepStripped(parts) == parts
  {
    if parts != [] {
      StripTrimmed(parts[0]);
      forall p | p in parts[1..] ensures p in parts {}
      KeepStrippedTrimmed(parts[1..]);
      assert [parts[0]] + parts[1..] == parts;
    }
  }

  /**
   * Round trip with the way surgeon records are written (`','.join(levels)`):
   * parsing the joined codes gives back exactly the codes, in order.
   */
  lemma ParseJoin(codes: seq<string>)
    requires forall c <- codes :: c != "" && IsTrimmed(c) && ',' !in c
    ensures ParseCallLevels(Some(Join(codes, ','))) == codes
  {
    if codes != [] {
      JoinStartsWithHead(codes, ',');
      SplitJoin(codes, ',');
      KeepStrippedTrimmed(codes);
    }
  }

  lemma JoinStartsWithHead(parts: seq<string>, sep: char)
    requires parts != []
    ensures |Join(parts, sep)| >= |parts[0]|
  {
  }

  /** The parsed codes of a surgeon record. */
  function Codes(s: Surgeon): seq<string>
  {
    ParseCallLevels(Some(s.callLevels))
  }

  function LevelCodes(levels: seq<Level>): (codes: seq<string>)
    ensures |codes| == |levels|
    ensures forall i :: 0 <= i < |levels| ==> codes[i] == Code(levels[i])
  {
    if levels == [] then [] else [Code(levels[0])] + LevelCodes(levels[1..])
  }

  /** Every level code is a non-empty, trimmed, comma-free piece, and distinct levels have distinct codes. */
  lemma CodeShape(l: Level)
    ensures Code(l) != "" && IsTrimmed(Code(l)) && ',' !in Code(l)
    ensures forall m :: Code(m) == Code(l) ==> m == l
  {
  }

  /**
   * A surgeon saved from the level checkboxes holds exactly the checked levels:
   * the record's call-level string parses back into their codes.
   */
  lemma SavedLevelsRoundTrip(id: int, name: string, levels: seq<Level>)
    ensures Codes(Surgeon(id, name, Join(LevelCodes(levels), ','))) == LevelCodes(levels)
    ensures forall l :: Code(l) in Codes(Surgeon(id, name, Join(LevelCodes(levels), ','))) <==> l in levels
  {
    var codes := LevelCodes(levels);
    forall c <- codes ensures c != "" && IsTrimmed(c) && ',' !in c {
      var i :| 0 <= i < |codes| && codes[i] == c;
      CodeShape(levels[i]);
    }
    ParseJoin(codes);
    assert Codes(Surgeon(id, name, Join(codes, ','))) == codes;
    forall l ensures Code(l) in codes <==> l in levels {
      if l in levels {
        var i :| 0 <= i < |levels| && levels[i] == l;
        assert codes[i] == Code(l);
      }
      if Code(l) in codes {
        var i :| 0 <= i < |codes| && codes[i] == Code(l);
        CodeShape(l);
        assert Code(levels[i]) == Code(l);
      }
    }
  }

  /** The level-2 supervision groups (1, 2 and 3 in the scheduler). */
  datatype SupervisionGroup = NeedsSupervision | SelfSufficient | SupervisorOnly

  /**
   * `get_level2_group`: 2A without 2B needs supervision, 2A with 2B is
   * self-sufficient, 2B without 2A supervises only; neither gives no group.
   */
  function Level2Group(s: Surgeon): (g: Option<SupervisionGroup>)
    ensures g.Some? <==> "2A" in Codes(s) || "2B" in Codes(s)
    ensures g == Some(NeedsSupervision) <==> "2A" in Codes(s) && "2B" !in Codes(s)
    ensures g == Some(SelfSufficient) <==> "2A" in Codes(s) && "2B" in Codes(s)
    ensures g == Some(SupervisorOnly) <==> "2B" in Codes(s) && "2A" !in Codes(s)
  {
    var cl := Codes(s);
    var has2A := "2A" in cl;
    var has2B := "2B" in cl;
    if has2A && !has2B then Some(NeedsSupervision)
    else if has2A && has2B then Some(SelfSufficient)
    else if has2B && !has2A then Some(SupervisorOnly)
    else None
  }
}
