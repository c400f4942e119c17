// `TargetRepository`: the two read-only lookups of a target by its exact
// (case-sensitive) `NAME`.
module TargetRepository {
  import opened Wrappers
  import opened Domain
  import opened Store

  /** `SELECT COUNT(1) FROM targets WHERE NAME = :TargetName`. */
  function CountNamed(targets: seq<Target>, name: string): nat {
    if targets == [] then 0
    else (if targets[0].name == name then 1 else 0) + CountNamed(targets[1..], name)
  }

  /** `ExistsAsync`. */
  function Exists(targets: seq<Target>, name: string): bool {
    CountNamed(targets, name) > 0
  }

  function FirstNamed(targets: seq<Target>, name: string): (r: Option<Target>)
    ensures r.Some? ==> r.value in targets && r.value.name == name
  {
    if targets == [] then None
    else if targets[0].name == name then Some(targets[0])
    else FirstNamed(targets[1..], name)
  }

  /** `GetByNameAsync`: `QuerySingleOrDefault` gives null for no row, the
      row for one, and throws for more than one. */
  function GetByName(targets: seq<Target>, name: string): Result<Option<Target>, StoreError> {
    var n := CountNamed(targets, name);
    if n == 0 then Success(None)
    else if n == 1 then Success(FirstNamed(targets, name))
    else Failure(MultipleRows)
  }

  /** The count is positive exactly when some target has that name, and
      the first such target is then found. */
  lemma {:induction false} CountNamedSpec(targets: seq<Target>, name: string)
    ensures CountNamed(targets, name) > 0 <==> exists i :: 0 <= i < |targets| && targets[i].name == name
    ensures CountNamed(targets, name) > 0 <==> FirstNamed(targets, name).Some?
  {
    if targets != [] {
      CountNamedSpec(targets[1..], name);
      if exists i :: 0 <= i < |targets| && targets[i].name == name {
        var i :| 0 <= i < |targets| && targets[i].name == name;
        if i > 0 {
          assert targets[1..][i - 1] == targets[i];
        }
      }
      if exists i :: 0 <= i < |targets[1..]| && targets[1..][i].name == name {
        var i :| 0 <= i < |targets[1..]| && targets[1..][i].name == name;
        assert targets[i + 1] == targets[1..][i];
      }
    }
  }

  /** Under a unique `NAME`, at most one row matches. */
  lemma {:induction false} UniqueNameCountsOnce(targets: seq<Target>, name: string)
    requires UniqueTargetNames(targets)
    ensures CountNamed(targets, name) <= 1
  {
    if targets != [] {
      UniqueNameCountsOnce(targets[1..], name);
      if targets[0].name == name {
        CountNamedSpec(targets[1..], name);
        forall i | 0 <= i < |targets[1..]| ensures targets[1..][i].name != name {
          assert targets[1..][i] == targets[i + 1];
        }
      }
    }
  }

  /** `ExistsAsync(n)` holds exactly when a target is named `n`; with unique
      names `GetByNameAsync(n)` never throws, returns that target when it
      exists and null when it does not. */
  lemma ExistsAgreesWithGetByName(targets: seq<Target>, name: string)
    requires UniqueTargetNames(targets)
    ensures Exists(targets, name) <==> exists i :: 0 <= i < |targets| && targets[i].name == name
    ensures GetByName(targets, name).Success?
    ensures GetByName(targets, name).value.Some? <==> Exists(targets, name)
    ensures GetByName(targets, name).value.Some? ==>
      GetByName(targets, name).value.value in targets && GetByName(targets, name).value.value.name == name
  {
    CountNamedSpec(targets, name);
    UniqueNameCountsOnce(targets, name);
  }
}
