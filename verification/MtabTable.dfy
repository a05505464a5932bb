/** Entries of the mount table, and `remove_from_mtab` of client/umount.cifs.c on one table. */
module MtabTable {

  datatype Entry = Entry(fsname: string, dir: string, kind: string, opts: string)

  function CountMatches(es: seq<Entry>, dir: string): nat {
    if es == [] then 0 else (if es[0].dir == dir then 1 else 0) + CountMatches(es[1..], dir)
  }

  /** The table without the last entry mounted on `dir`. */
  function RemoveLast(es: seq<Entry>, dir: string): seq<Entry> {
    if es == [] then []
    else if es[0].dir == dir && CountMatches(es[1..], dir) == 0 then es[1..]
    else [es[0]] + RemoveLast(es[1..], dir)
  }

  lemma {:induction false} NoMatches(es: seq<Entry>, dir: string)
    ensures CountMatches(es, dir) == 0 <==> forall i :: 0 <= i < |es| ==> es[i].dir != dir
  {
    if es != [] {
      NoMatches(es[1..], dir);
      if forall i :: 0 <= i < |es| ==> es[i].dir != dir {
        assert forall i :: 0 <= i < |es[1..]| ==> es[1..][i] == es[i + 1];
      } else if es[0].dir != dir {
        var i :| 0 <= i < |es| && es[i].dir == dir;
        assert es[1..][i - 1] == es[i];
      }
    }
  }

  lemma {:induction false} RemoveLastAt(es: seq<Entry>, dir: string, k: nat)
    requires k < |es| && es[k].dir == dir && CountMatches(es[k + 1..], dir) == 0
    ensures CountMatches(es, dir) > 0
    ensures RemoveLast(es, dir) == es[..k] + es[k + 1..]
  {
    if k > 0 {
      assert es[1..][k..] == es[k + 1..];
      RemoveLastAt(es[1..], dir, k - 1);
      assert [es[0]] + (es[1..][..k - 1] + es[k + 1..]) == es[..k] + es[k + 1..];
    }
  }

  /** RemoveLast drops exactly one entry, the last one on `dir`, and nothing when there is none. */
  lemma RemoveLastDropsOne(es: seq<Entry>, dir: string)
    ensures (forall i :: 0 <= i < |es| ==> es[i].dir != dir) ==> RemoveLast(es, dir) == es
    ensures forall k :: 0 <= k < |es| && es[k].dir == dir && (forall i :: k < i < |es| ==> es[i].dir != dir) ==>
                          RemoveLast(es, dir) == es[..k] + es[k + 1..]
  {
    NoMatches(es, dir);
    NothingToRemove(es, dir);
    forall k | 0 <= k < |es| && es[k].dir == dir && forall i :: k < i < |es| ==> es[i].dir != dir
      ensures RemoveLast(es, dir) == es[..k] + es[k + 1..]
    {
      NoMatches(es[k + 1..], dir);
      RemoveLastAt(es, dir, k);
    }
  }

  lemma {:induction false} NothingToRemove(es: seq<Entry>, dir: string)
    ensures CountMatches(es, dir) == 0 ==> RemoveLast(es, dir) == es
  {
    if es != [] {
      NothingToRemove(es[1..], dir);
    }
  }

  lemma CountStep(es: seq<Entry>, i: nat, dir: string)
    requires i < |es|
    ensures CountMatches(es[i..], dir) == (if es[i].dir == dir then 1 else 0) + CountMatches(es[i + 1..], dir)
  {
    assert es[i..][1..] == es[i + 1..];
  }

  /** What the copying pass still copies of `es` when `num` matches are left on its counter, which stops at 1. */
  function CopyPass(es: seq<Entry>, dir: string, num: int): seq<Entry> {
    if es == [] then []
    else if es[0].dir != dir then [es[0]] + CopyPass(es[1..], dir, num)
    else if num != 1 then [es[0]] + CopyPass(es[1..], dir, num - 1)
    else CopyPass(es[1..], dir, num)
  }

  lemma CopyStep(es: seq<Entry>, dir: string, i: nat, num: int, copied: seq<Entry>)
    requires i < |es|
    ensures copied + CopyPass(es[i..], dir, num) ==
            if es[i].dir != dir then (copied + [es[i]]) + CopyPass(es[i + 1..], dir, num)
            else if num != 1 then (copied + [es[i]]) + CopyPass(es[i + 1..], dir, num - 1)
            else copied + CopyPass(es[i + 1..], dir, num)
  {
    assert es[i..] == [es[i]] + es[i + 1..];
  }

  /** With the exact count, the pass drops the last match; with none left, it copies everything. */
  lemma {:induction false} CopyPassRemovesLast(es: seq<Entry>, dir: string)
    ensures CopyPass(es, dir, CountMatches(es, dir)) == RemoveLast(es, dir)
    ensures CountMatches(es, dir) == 0 ==> CopyPass(es, dir, 1) == es
  {
    if es != [] {
      CopyPassRemovesLast(es[1..], dir);
      NothingToRemove(es[1..], dir);
    }
  }

  /** The count pass and the copy pass of `remove_from_mtab` on a table nobody else changes. */
  method RemoveFromMtab(es: seq<Entry>, dir: string) returns (copied: seq<Entry>)
    ensures copied == RemoveLast(es, dir)
  {
    var numMatches := 0;
    var i := 0;
    assert es[0..] == es;
    while i < |es|
      invariant i <= |es|
      invariant numMatches + CountMatches(es[i..], dir) == CountMatches(es, dir)
    {
      CountStep(es, i, dir);
      if es[i].dir == dir {
        numMatches := numMatches + 1;
      }
      i := i + 1;
    }
    copied := [];
    i := 0;
    CopyPassRemovesLast(es, dir);
    while i < |es|
      invariant i <= |es|
      invariant copied + CopyPass(es[i..], dir, numMatches) == RemoveLast(es, dir)
    {
      CopyStep(es, dir, i, numMatches, copied);
      if es[i].dir != dir {
        copied := copied + [es[i]];
      } else {
        if numMatches != 1 {
          copied := copied + [es[i]];
          numMatches := numMatches - 1;
        }
      }
      i := i + 1;
    }
  }
}
