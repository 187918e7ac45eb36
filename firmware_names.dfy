/** How addFirmwareWithName picks a candidate: strncmp over at most 64 characters,
    scanning the candidate list from its last entry towards its first. */
module FirmwareNames {
  import opened KernelTypes

  /** The length bound passed to strncmp. */
  const NameCompareLength: nat := 64

  /** The character at position `i` of a C string, reading its terminating NUL (and
      nothing further) once `i` reaches the end. */
  function CharAt(s: string, i: nat): char
  {
    if i < |s| then s[i] else '\0'
  }

  /** strncmp(a, b, n) == 0 for the positions from `i` on: characters are compared
      until they differ, both strings end, or `n` positions have been compared. */
  function StrncmpEqualFrom(a: string, b: string, n: nat, i: nat): (r: bool)
    ensures r <==> StrncmpAgreesFrom(a, b, n, i)
    decreases n - i
  {
    if i >= n then true
    else if CharAt(a, i) != CharAt(b, i) then false
    else if CharAt(a, i) == '\0' then true
    else StrncmpEqualFrom(a, b, n, i + 1)
  }

  /** strncmp's promise read position by position: among the first `n` positions from
      `i` on, every one that no earlier common NUL has cut off holds the same character. */
  ghost predicate StrncmpAgreesFrom(a: string, b: string, n: nat, i: nat)
  {
    forall j {:trigger CharAt(a, j), CharAt(b, j)} ::
      i <= j < n && (forall k :: i <= k < j ==> CharAt(a, k) != '\0') ==> CharAt(a, j) == CharAt(b, j)
  }

  /** The test `!strncmp(candidate, name, 64)`. */
  predicate NamesMatch(candidate: string, name: string): (r: bool)
    ensures r <==> StrncmpAgreesFrom(candidate, name, NameCompareLength, 0)
  {
    StrncmpEqualFrom(candidate, name, NameCompareLength, 0)
  }

  /** A name as C code holds it: no NUL before its end. */
  predicate IsCString(s: string)
  {
    forall i :: 0 <= i < |s| ==> s[i] != '\0'
  }

  /** The first `n` characters of `s`, or all of it when it is shorter. */
  function Prefix(s: string, n: nat): string
  {
    if |s| <= n then s else s[..n]
  }

  lemma {:induction false} StrncmpEqualFromIffPrefix(a: string, b: string, n: nat, i: nat)
    requires IsCString(a) && IsCString(b)
    requires i <= n && i <= |a| && i <= |b| && a[..i] == b[..i]
    ensures StrncmpEqualFrom(a, b, n, i) <==> Prefix(a, n) == Prefix(b, n)
    decreases n - i
  {
    if i >= n {
      assert Prefix(a, n) == a[..n] && Prefix(b, n) == b[..n];
    } else if CharAt(a, i) != CharAt(b, i) {
      if i < |a| && i < |b| {
        assert Prefix(a, n)[i] != Prefix(b, n)[i];
      } else if i == |a| {
        assert b[i] != '\0';
        assert |Prefix(a, n)| == i < |Prefix(b, n)|;
      } else {
        assert a[i] != '\0';
        assert |Prefix(b, n)| == i < |Prefix(a, n)|;
      }
    } else if CharAt(a, i) == '\0' {
      assert i == |a| && i == |b|;
      assert a == a[..i] && b == b[..i];
    } else {
      assert a[..i + 1] == a[..i] + [a[i]] && b[..i + 1] == b[..i] + [b[i]];
      StrncmpEqualFromIffPrefix(a, b, n, i + 1);
    }
  }

  /** For names without embedded NULs, the strncmp test holds exactly when the two
      names agree on their first 64 characters (a shorter name must then be equal). */
  lemma NamesMatchIffSamePrefix(candidate: string, name: string)
    requires IsCString(candidate) && IsCString(name)
    ensures NamesMatch(candidate, name) <==>
      Prefix(candidate, NameCompareLength) == Prefix(name, NameCompareLength)
  {
    StrncmpEqualFromIffPrefix(candidate, name, NameCompareLength, 0);
  }

  /** Index `i` is where the reverse scan stops: its name matches and no candidate
      after it does. */
  predicate IsLastMatch(name: string, candidates: seq<Descriptor>, i: nat)
  {
    i < |candidates| && NamesMatch(candidates[i].name, name) &&
    forall j :: i < j < |candidates| ==> !NamesMatch(candidates[j].name, name)
  }

  /** The candidate index at which addFirmwareWithName's reverse scan stops: the highest
      index whose name matches, or None when no candidate matches. */
  function LastMatch(name: string, candidates: seq<Descriptor>): (r: Option<nat>)
    ensures r.Some? ==> IsLastMatch(name, candidates, r.value)
    ensures r.None? <==> forall j :: 0 <= j < |candidates| ==> !NamesMatch(candidates[j].name, name)
    decreases |candidates|
  {
    if |candidates| == 0 then None
    else if NamesMatch(candidates[|candidates| - 1].name, name) then Some(|candidates| - 1)
    else LastMatch(name, candidates[..|candidates| - 1])
  }

  /** The stopping index is unique and LastMatch finds it. */
  lemma LastMatchFinds(name: string, candidates: seq<Descriptor>, i: nat)
    requires IsLastMatch(name, candidates, i)
    ensures LastMatch(name, candidates) == Some(i)
  {
    assert LastMatch(name, candidates).Some?;
  }

  /** Two requested names that settle on candidates with the same name settle on the
      same candidate. */
  lemma SameKeySameCandidate(name1: string, name2: string, candidates: seq<Descriptor>)
    requires LastMatch(name1, candidates).Some? && LastMatch(name2, candidates).Some?
    requires candidates[LastMatch(name1, candidates).value].name ==
             candidates[LastMatch(name2, candidates).value].name
    ensures LastMatch(name1, candidates) == LastMatch(name2, candidates)
  {
  }
}
