/** The group list loop of `_nss_winbind_initgroups_dyn` in nsswitch/winbind_nss_linux.c. */
module InitGroups {
  import opened Common

  type Gid = nat

  /** The daemon's groups without the primary one. */
  function Others(gids: seq<Gid>, primary: Gid): seq<Gid> {
    if gids == [] then []
    else (if gids[0] == primary then [] else [gids[0]]) + Others(gids[1..], primary)
  }

  /** What the list holds in the end: everything, or as much as a positive limit allows. */
  function Grown(before: seq<Gid>, gids: seq<Gid>, primary: Gid, limit: int): (after: seq<Gid>) {
    var all := before + Others(gids, primary);
    if limit > 0 then Take(all, limit) else all
  }

  lemma OthersStep(gids: seq<Gid>, primary: Gid, i: nat)
    requires i < |gids|
    ensures Others(gids[i..], primary) ==
            (if gids[i] == primary then [] else [gids[i]]) + Others(gids[i + 1..], primary)
  {
    assert gids[i..][1..] == gids[i + 1..];
  }

  /** realloc to `n` entries. */
  method Realloc(groups: array<Gid>, used: nat, n: nat) returns (bigger: array<Gid>)
    requires used <= groups.Length <= n
    ensures fresh(bigger) && bigger.Length == n && bigger[..used] == groups[..used]
  {
    bigger := new Gid[n];
    forall i | 0 <= i < used {
      bigger[i] := groups[i];
    }
  }

  /** A full list doubles, up to the limit; `full` when it may not grow any more. */
  method MakeRoom(groups0: array<Gid>, start: nat, limit: int) returns (full: bool, groups: array<Gid>)
    requires 0 < groups0.Length && start <= groups0.Length && (limit > 0 ==> groups0.Length <= limit)
    ensures full ==> groups == groups0 && start == groups.Length == limit
    ensures !full ==> start < groups.Length
    ensures groups == groups0 || fresh(groups)
    ensures start <= groups.Length && groups[..start] == groups0[..start]
    ensures limit > 0 ==> groups.Length <= limit
  {
    full, groups := false, groups0;
    if start == groups.Length {
      var newsize := 2 * groups.Length;
      if limit > 0 {
        if groups.Length == limit {
          full := true;
          return;
        }
        if newsize > limit {
          newsize := limit;
        }
      }
      groups := Realloc(groups, start, newsize);
    }
  }

  /** The loop; the length of the array is `*size`, which the code needs positive to be able to double. */
  method AddGroups(groups0: array<Gid>, start0: nat, primary: Gid, gids: seq<Gid>, limit: int)
    returns (groups: array<Gid>, start: nat)
    requires 0 < groups0.Length && start0 <= groups0.Length
    requires limit > 0 ==> groups0.Length <= limit
    modifies groups0
    ensures start <= groups.Length && (limit > 0 ==> groups.Length <= limit)
    ensures groups[..start] == Grown(old(groups0[..start0]), gids, primary, limit)
    ensures limit <= 0 ==> groups[..start] == old(groups0[..start0]) + Others(gids, primary)
    ensures limit > 0 ==> groups[..start] == Take(old(groups0[..start0]) + Others(gids, primary), limit)
    ensures start < start0 + |Others(gids, primary)| ==> start == groups.Length == limit
  {
    hide Others;
    groups, start := groups0, start0;
    ghost var goal := groups[..start] + Others(gids, primary);
    var i := 0;
    assert gids[0..] == gids;
    while i < |gids|
      invariant i <= |gids|
      invariant groups == groups0 || fresh(groups)
      invariant 0 < groups.Length && start <= groups.Length && (limit > 0 ==> groups.Length <= limit)
      invariant groups[..start] + Others(gids[i..], primary) == goal
    {
      OthersStep(gids, primary, i);
      if gids[i] == primary {
        i := i + 1;
        continue;
      }
      var full;
      ghost var was, rest := groups[..start], Others(gids[i + 1..], primary);
      full, groups := MakeRoom(groups, start, limit);
      if full {
        assert goal[..start] == was;
        return;
      }
      groups[start] := gids[i];
      start := start + 1;
      assert groups[..start] == was + [gids[i]];
      assert (was + [gids[i]]) + rest == was + ([gids[i]] + rest);
      i := i + 1;
    }
    assert Others(gids[i..], primary) == [] by { NoOthers(gids[i..], primary); }
    assert groups[..start] + [] == groups[..start];
  }

  lemma NoOthers(gids: seq<Gid>, primary: Gid)
    requires gids == []
    ensures Others(gids, primary) == []
  {
  }

  lemma {:induction false} OthersIsFilter(gids: seq<Gid>, primary: Gid)
    ensures primary !in Others(gids, primary)
    ensures multiset(Others(gids, primary)) == multiset(gids)[primary := 0]
  {
    if gids != [] {
      OthersIsFilter(gids[1..], primary);
      assert gids == [gids[0]] + gids[1..];
    }
  }

  /** The order is kept: the groups go through one after another. */
  lemma {:induction false} OthersInOrder(a: seq<Gid>, b: seq<Gid>, primary: Gid)
    ensures Others(a + b, primary) == Others(a, primary) + Others(b, primary)
    decreases |a|
  {
    if a == [] {
      assert a + b == b;
    } else {
      assert (a + b)[1..] == a[1..] + b;
      OthersInOrder(a[1..], b, primary);
    }
  }
}
