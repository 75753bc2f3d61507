/** The progress store (the solved and attempted id lists) and the status
    engine that derives a set's status from it. */
module Status {
  import opened Catalog

  datatype Status = Unsolved | Attempted | Solved

  /** The two persisted id lists, `solved_v4` and `attempted_v4`. */
  datatype Progress = Progress(solved: seq<string>, attempted: seq<string>)

  /** Each id at most once, as the membership guards keep the lists. */
  ghost predicate NoDuplicates(xs: seq<string>)
  {
    forall i, j :: 0 <= i < j < |xs| ==> xs[i] != xs[j]
  }

  /** The dashboard's sort key: unsolved 0, attempted 1, solved 2. */
  function Rank(st: Status): (k: nat)
    ensures k <= 2
    ensures st == Unsolved <==> k == 0
    ensures st == Solved <==> k == 2
  {
    match st
    case Unsolved => 0
    case Attempted => 1
    case Solved => 2
  }

  /** `ids.every(id => pool.includes(id))` */
  function AllIn(ids: seq<string>, pool: seq<string>): (r: bool)
    ensures r <==> forall i :: 0 <= i < |ids| ==> ids[i] in pool
  {
    if ids == [] then true else ids[0] in pool && AllIn(ids[1..], pool)
  }

  /** `ids.some(id => pool.includes(id))` */
  function AnyIn(ids: seq<string>, pool: seq<string>): (r: bool)
    ensures r <==> exists i :: 0 <= i < |ids| && ids[i] in pool
  {
    if ids == [] then false else ids[0] in pool || AnyIn(ids[1..], pool)
  }

  /** getSetStatus: solved exactly when all of the set's ids are solved;
      attempted exactly when one is unsolved and one attempted; unsolved
      exactly when one is unsolved and none attempted. */
  function GetSetStatus(s: QuestionSet, p: Progress): (st: Status)
    ensures st == Solved <==> forall id :: id in QuestionIds(s) ==> id in p.solved
    ensures st == Attempted <==>
              (exists id :: id in QuestionIds(s) && id !in p.solved) &&
              (exists id :: id in QuestionIds(s) && id in p.attempted)
    ensures st == Unsolved <==>
              (exists id :: id in QuestionIds(s) && id !in p.solved) &&
              (forall id :: id in QuestionIds(s) ==> id !in p.attempted)
  {
    var ids := QuestionIds(s);
    if AllIn(ids, p.solved) then Solved
    else if AnyIn(ids, p.attempted) then Attempted
    else Unsolved
  }

  /** A set with an empty `questions` array is solved whatever the lists
      hold; a set without one is judged on its own id alone. */
  lemma EmptyOrInlineStatus(s: QuestionSet, p: Progress)
    ensures s.body == Listed([]) ==> GetSetStatus(s, p) == Solved
    ensures s.body.Inline? ==>
              (GetSetStatus(s, p) == Solved <==> s.id in p.solved) &&
              (GetSetStatus(s, p) == Attempted <==> s.id !in p.solved && s.id in p.attempted)
  {
  }

  /** Status never regresses when ids are only ever added to the lists:
      its rank is monotone in both lists. */
  lemma StatusMonotone(s: QuestionSet, p: Progress, p': Progress)
    requires forall id :: id in p.solved ==> id in p'.solved
    requires forall id :: id in p.attempted ==> id in p'.attempted
    ensures Rank(GetSetStatus(s, p)) <= Rank(GetSetStatus(s, p'))
    ensures GetSetStatus(s, p) == Solved ==> GetSetStatus(s, p') == Solved
  {
  }
}
