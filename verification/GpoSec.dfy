/** Security filtering of policies: libgpo/gpo_sec.c. */
module GpoSec {
  import opened Common

  type Sid = nat
  type Guid = nat

  const ACCESS_ALLOWED_OBJECT := 5
  const ACCESS_DENIED_OBJECT := 6
  const SYSTEM_ALARM_OBJECT := 8

  const OBJECT_TYPE_PRESENT := 1
  const INHERITED_OBJECT_TYPE_PRESENT := 2

  /** ADS_EXTENDED_RIGHT_APPLY_GROUP_POLICY, edacfd8f-ffb3-11d1-b41d-00a0c968f939. */
  const APPLY_GROUP_POLICY: Guid := 0xedacfd8f_ffb311d1_b41d00a0_c968f939

  datatype Ace = Ace(kind: nat, mask: nat, objectFlags: nat, objectType: Guid, inheritedType: Guid, trustee: Sid)

  datatype Verdict = Granted | Denied | MoreEntries

  datatype NtStatus = StatusOk | AccessDenied | InvalidUserBuffer | InvalidSecurityDescr

  /** The switch compares the whole flag word, and its first case falls through into the second. */
  predicate AgpObjectGuid(a: Ace) {
    if a.objectFlags == OBJECT_TYPE_PRESENT then
      a.objectType == APPLY_GROUP_POLICY || a.inheritedType == APPLY_GROUP_POLICY
    else
      a.objectFlags == INHERITED_OBJECT_TYPE_PRESENT && a.inheritedType == APPLY_GROUP_POLICY
  }

  predicate AceObject(kind: nat) {
    ACCESS_ALLOWED_OBJECT <= kind <= SYSTEM_ALARM_OBJECT
  }

  /** SEC_ADS_CONTROL_ACCESS is bit 8. */
  predicate AgpAccessBits(mask: nat) {
    mask / 0x100 % 2 == 1
  }

  /** The entry is about applying policies, and about this user. */
  predicate Concerns(a: Ace, token: set<Sid>) {
    AceObject(a.kind) && AgpObjectGuid(a) && AgpAccessBits(a.mask) && a.trustee in token
  }

  function CheckAce(a: Ace, token: set<Sid>): Verdict {
    if a.kind == ACCESS_DENIED_OBJECT then (if Concerns(a, token) then Denied else MoreEntries)
    else if a.kind == ACCESS_ALLOWED_OBJECT then (if Concerns(a, token) then Granted else MoreEntries)
    else MoreEntries
  }

  predicate Allows(a: Ace, token: set<Sid>) {
    a.kind == ACCESS_ALLOWED_OBJECT && Concerns(a, token)
  }

  predicate Denies(a: Ace, token: set<Sid>) {
    a.kind == ACCESS_DENIED_OBJECT && Concerns(a, token)
  }

  /** An entry written for applying Group Policy, whose control access bit is set, with this user in it. */
  predicate IsAboutUser(a: Ace, token: set<Sid>) {
    && a.trustee in token && a.mask % 0x200 >= 0x100
    && ((a.objectFlags == 1 && a.objectType == 0xedacfd8f_ffb311d1_b41d00a0_c968f939)
        || ((a.objectFlags == 1 || a.objectFlags == 2) && a.inheritedType == 0xedacfd8f_ffb311d1_b41d00a0_c968f939))
  }

  /** What grants and what denies, field by field: entries of the types 5 and 6. */
  lemma AllowsAndDenies(a: Ace, token: set<Sid>)
    ensures Allows(a, token) <==> a.kind == 5 && IsAboutUser(a, token)
    ensures Denies(a, token) <==> a.kind == 6 && IsAboutUser(a, token)
  {
    BitEight(a.mask);
  }

  lemma BitEight(mask: nat)
    ensures mask / 0x100 % 2 == 1 <==> mask % 0x200 >= 0x100
  {
    var q, r := mask / 0x200, mask % 0x200;
    assert mask == 0x200 * q + r;
    assert mask / 0x100 == 2 * q + r / 0x100;
  }

  /** Access: some entry grants it and no entry before that one denies it. */
  ghost predicate MayApply(dacl: seq<Ace>, token: set<Sid>) {
    exists i :: 0 <= i < |dacl| && Allows(dacl[i], token) && forall j :: 0 <= j < i ==> !Denies(dacl[j], token)
  }

  function Filtering(dacl: Option<seq<Ace>>, token: Option<set<Sid>>): NtStatus {
    if token.None? then InvalidUserBuffer
    else if dacl.None? then InvalidSecurityDescr
    else FirstVerdict(dacl.value, token.value)
  }

  function FirstVerdict(dacl: seq<Ace>, token: set<Sid>): NtStatus {
    if dacl == [] then AccessDenied
    else
      match CheckAce(dacl[0], token)
      case Denied => AccessDenied
      case Granted => StatusOk
      case MoreEntries => FirstVerdict(dacl[1..], token)
  }

  /** Deny is the default, and the first entry that concerns the user decides. */
  lemma {:induction false} FirstVerdictIsMayApply(dacl: seq<Ace>, token: set<Sid>)
    ensures FirstVerdict(dacl, token) == StatusOk <==> MayApply(dacl, token)
    ensures FirstVerdict(dacl, token) != StatusOk ==> FirstVerdict(dacl, token) == AccessDenied
  {
    if dacl != [] {
      var rest := dacl[1..];
      FirstVerdictIsMayApply(rest, token);
      assert forall i :: 1 <= i < |dacl| ==> dacl[i] == rest[i - 1];
      if CheckAce(dacl[0], token) == MoreEntries {
        if MayApply(rest, token) {
          var i :| 0 <= i < |rest| && Allows(rest[i], token) && forall j :: 0 <= j < i ==> !Denies(rest[j], token);
          assert Allows(dacl[i + 1], token) && forall j :: 0 <= j < i + 1 ==> !Denies(dacl[j], token);
        }
        if MayApply(dacl, token) {
          var i :| 0 <= i < |dacl| && Allows(dacl[i], token) && forall j :: 0 <= j < i ==> !Denies(dacl[j], token);
          assert Allows(rest[i - 1], token) && forall j :: 0 <= j < i - 1 ==> !Denies(rest[j], token) by {
            assert forall j :: 0 <= j < |rest| ==> rest[j] == dacl[j + 1];
          }
        }
      } else if CheckAce(dacl[0], token) == Granted {
        assert Allows(dacl[0], token);
      } else {
        assert Denies(dacl[0], token) && !Allows(dacl[0], token);
      }
    }
  }

  method ApplySecurityFiltering(dacl: Option<seq<Ace>>, token: Option<set<Sid>>) returns (status: NtStatus)
    ensures status == Filtering(dacl, token)
    ensures token.None? ==> status == InvalidUserBuffer
    ensures token.Some? && dacl.None? ==> status == InvalidSecurityDescr
    ensures token.Some? && dacl.Some? ==> status == StatusOk || status == AccessDenied
    ensures dacl.Some? && token.Some? ==> (status == StatusOk <==> MayApply(dacl.value, token.value))
  {
    if token.None? {
      return InvalidUserBuffer;
    }
    if dacl.None? {
      return InvalidSecurityDescr;
    }
    FirstVerdictIsMayApply(dacl.value, token.value);
    assert dacl.value[0..] == dacl.value;
    for i := 0 to |dacl.value|
      invariant FirstVerdict(dacl.value, token.value) == FirstVerdict(dacl.value[i..], token.value)
    {
      assert dacl.value[i..][1..] == dacl.value[i + 1..];
      var verdict := CheckAce(dacl.value[i], token.value);
      if verdict == Denied {
        return AccessDenied;
      } else if verdict == Granted {
        return StatusOk;
      }
    }
    return AccessDenied;
  }
}
