/** Conflict descriptions and resolutions (`src/conflict.rs`): decoding of
  * the native conflict kind, action and reason codes, the encodings of a
  * resolution choice, the default result and the fixed-choice resolver. */
module Conflict {
  import opened Common

  // ---------------------------------------------------------------------
  // Decoding native codes

  datatype ConflictKind = Text | Property | Tree

  /** The `svn_wc_conflict_kind_t` code of each kind. */
  function KindCode(k: ConflictKind): int {
    match k
    case Text => 0
    case Property => 1
    case Tree => 2
  }

  /** `From<svn_wc_conflict_kind_t> for ConflictKind`: an unknown code
    * reads as a text conflict. */
  function KindFromRaw(n: int): ConflictKind {
    if n == 1 then Property else if n == 2 then Tree else Text
  }

  /** A code decodes to a kind exactly when it is that kind's code, or it
    * is unknown and the kind is the text fallback. */
  lemma KindFromRawExactly(n: int, k: ConflictKind)
    ensures KindFromRaw(n) == k <==> n == KindCode(k) || (k == Text && !(0 <= n <= 2))
  {
  }

  datatype ConflictAction = Edit | Add | Delete | Replace

  /** The `svn_wc_conflict_action_t` code of each action. */
  function ActionCode(a: ConflictAction): int {
    match a
    case Edit => 0
    case Add => 1
    case Delete => 2
    case Replace => 3
  }

  /** `From<svn_wc_conflict_action_t> for ConflictAction`: an unknown code
    * reads as an edit. */
  function ActionFromRaw(n: int): ConflictAction {
    if n == 1 then Add else if n == 2 then Delete else if n == 3 then Replace else Edit
  }

  /** A code decodes to an action exactly when it is that action's code,
    * or it is unknown and the action is the edit fallback. */
  lemma ActionFromRawExactly(n: int, a: ConflictAction)
    ensures ActionFromRaw(n) == a <==> n == ActionCode(a) || (a == Edit && !(0 <= n <= 3))
  {
  }

  datatype ConflictReason =
    | Edited
    | Obstructed
    | Deleted
    | Missing
    | Unversioned
    | Added
    | Replaced
    | MovedAway
    | MovedHere

  /** The `svn_wc_conflict_reason_t` code of each reason. */
  function ReasonCode(r: ConflictReason): int {
    match r
    case Edited => 0
    case Obstructed => 1
    case Deleted => 2
    case Missing => 3
    case Unversioned => 4
    case Added => 5
    case Replaced => 6
    case MovedAway => 7
    case MovedHere => 8
  }

  /** `From<svn_wc_conflict_reason_t> for ConflictReason`: an unknown code
    * reads as an edit. */
  function ReasonFromRaw(n: int): ConflictReason {
    if n == 1 then Obstructed
    else if n == 2 then Deleted
    else if n == 3 then Missing
    else if n == 4 then Unversioned
    else if n == 5 then Added
    else if n == 6 then Replaced
    else if n == 7 then MovedAway
    else if n == 8 then MovedHere
    else Edited
  }

  /** A code decodes to a reason exactly when it is that reason's code, or
    * it is unknown and the reason is the edited fallback. */
  lemma ReasonFromRawExactly(n: int, r: ConflictReason)
    ensures ReasonFromRaw(n) == r <==> n == ReasonCode(r) || (r == Edited && !(0 <= n <= 8))
  {
  }

  // ---------------------------------------------------------------------
  // Resolution choices

  datatype ConflictChoice =
    | Postpone
    | Base
    | TheirsFull
    | MineFull
    | TheirsConflict
    | MineConflict
    | Merged
    | Undefined

  /** `ConflictChoice::to_raw`: the `svn_wc_conflict_choice_t` value. */
  function ChoiceToRaw(c: ConflictChoice): (n: int)
    ensures -1 <= n <= 6
    ensures n == -1 <==> c == Undefined
  {
    match c
    case Undefined => -1
    case Postpone => 0
    case Base => 1
    case TheirsFull => 2
    case MineFull => 3
    case TheirsConflict => 4
    case MineConflict => 5
    case Merged => 6
  }

  /** The choice a native value stands for (the inverse of `to_raw`). */
  function ChoiceFromRaw(n: int): Option<ConflictChoice> {
    if n == -1 then Some(Undefined)
    else if n == 0 then Some(Postpone)
    else if n == 1 then Some(Base)
    else if n == 2 then Some(TheirsFull)
    else if n == 3 then Some(MineFull)
    else if n == 4 then Some(TheirsConflict)
    else if n == 5 then Some(MineConflict)
    else if n == 6 then Some(Merged)
    else None
  }

  /** `to_raw` is injective: every choice is recovered from its value, and
    * every value in -1..6 belongs to exactly one choice. */
  lemma ChoiceRawRoundTrip(c: ConflictChoice, d: ConflictChoice, n: int)
    ensures ChoiceFromRaw(ChoiceToRaw(c)) == Some(c)
    ensures ChoiceToRaw(c) == ChoiceToRaw(d) ==> c == d
    ensures -1 <= n <= 6 ==> ChoiceFromRaw(n).Some? && ChoiceToRaw(ChoiceFromRaw(n).value) == n
  {
  }

  /** The `svn_client_conflict_option_id_t` values the choices map to. */
  datatype ConflictOptionId =
    | OptionUndefined
    | OptionPostpone
    | OptionBaseText
    | OptionIncomingText
    | OptionWorkingText
    | OptionIncomingTextWhereConflicted
    | OptionWorkingTextWhereConflicted
    | OptionMergedText
    | OptionAcceptCurrentWcState
    | OptionIncomingDeleteAccept
    | OptionIncomingDeleteIgnore

  /** `ConflictChoice::to_text_option_id`: one text option per choice. */
  function ToTextOptionId(c: ConflictChoice): ConflictOptionId {
    match c
    case Undefined => OptionUndefined
    case Postpone => OptionPostpone
    case Base => OptionBaseText
    case TheirsFull => OptionIncomingText
    case MineFull => OptionWorkingText
    case TheirsConflict => OptionIncomingTextWhereConflicted
    case MineConflict => OptionWorkingTextWhereConflicted
    case Merged => OptionMergedText
  }

  /** Distinct choices give distinct text options. */
  lemma TextOptionIdInjective(c: ConflictChoice, d: ConflictChoice)
    ensures ToTextOptionId(c) == ToTextOptionId(d) ==> c == d
  {
  }

  /** `ConflictChoice::to_tree_option_id`: four choices have a tree
    * option of their own and every other choice postpones. */
  function ToTreeOptionId(c: ConflictChoice): (o: ConflictOptionId)
    ensures o == OptionPostpone <==> c !in {Base, TheirsFull, MineFull}
    ensures c == Base <==> o == OptionAcceptCurrentWcState
    ensures c == TheirsFull <==> o == OptionIncomingDeleteAccept
    ensures c == MineFull <==> o == OptionIncomingDeleteIgnore
  {
    match c
    case Postpone => OptionPostpone
    case Base => OptionAcceptCurrentWcState
    case TheirsFull => OptionIncomingDeleteAccept
    case MineFull => OptionIncomingDeleteIgnore
    case _ => OptionPostpone
  }

  // ---------------------------------------------------------------------
  // Results and the fixed-choice resolver

  /** The parts of a conflict description a resolver is shown (paths of
    * the side files and the versions are left out). */
  datatype ConflictDescription = ConflictDescription(
    localAbspath: string,
    kind: ConflictKind,
    action: ConflictAction,
    reason: ConflictReason,
    propertyName: Option<string>,
    isBinary: bool)

  datatype ConflictResult = ConflictResult(choice: ConflictChoice, mergedFile: Option<string>, saveMerged: bool)

  /** `Default for ConflictResult`: postpone, nothing merged, nothing
    * saved. */
  function DefaultConflictResult(): (r: ConflictResult)
    ensures r.choice == Postpone && r.mergedFile.None? && !r.saveMerged
  {
    ConflictResult(Postpone, None, false)
  }

  /** `SimpleConflictResolver`, which always makes the same choice;
    * `postpone`, `theirs` and `mine` fix the choice to postpone, theirs-full
    * and mine-full. */
  datatype SimpleConflictResolver = SimpleConflictResolver(choice: ConflictChoice)
  {
    static function Postponing(): (r: SimpleConflictResolver)
      ensures r.choice == Postpone
    {
      SimpleConflictResolver(Postpone)
    }

    static function Theirs(): (r: SimpleConflictResolver)
      ensures r.choice == TheirsFull
    {
      SimpleConflictResolver(TheirsFull)
    }

    static function Mine(): (r: SimpleConflictResolver)
      ensures r.choice == MineFull
    {
      SimpleConflictResolver(MineFull)
    }

    /** `resolve`: never fails and answers the configured choice without
      * a merged file or a save. */
    function Resolve(conflict: ConflictDescription): (r: Result<ConflictResult>)
      ensures r.Success? && r.value.choice == choice
      ensures r.value.mergedFile.None? && !r.value.saveMerged
    {
      Success(ConflictResult(choice, None, false))
    }
  }

  /** The answer of a fixed-choice resolver does not depend on the
    * conflict; a postponing resolver answers the default result. */
  lemma ResolveIgnoresConflict(s: SimpleConflictResolver, c1: ConflictDescription, c2: ConflictDescription)
    ensures s.Resolve(c1) == s.Resolve(c2)
    ensures SimpleConflictResolver.Postponing().Resolve(c1) == Success(DefaultConflictResult())
  {
  }
}
