/**
 * The in-progress role selector an operator builds with `/roleselector`:
 * a draft is an ordered list of named groups, each an ordered list of roles,
 * and the bot keeps one draft per (guild, user) pair.
 */
module Drafts {

  /** A guild role as a command payload carries it: its id and its display name. */
  datatype Role = Role(id: nat, name: string)

  /** One named group of a draft; a finished draft shows it as one select menu. */
  datatype Group = Group(name: string, roles: seq<Role>)

  /**
   * The groups of a draft in the order they were added. Groups are never
   * removed from a draft, so this is also the order the bot's dictionary
   * enumerates them in.
   */
  type Draft = seq<Group>

  /** A draft is addressed by the pair (guild id, user id). */
  type Key = (nat, nat)

  /** Every open draft of the process. */
  type Store = map<Key, Draft>

  /** `add` refuses a draft that already holds this many groups. */
  const MaxGroups: nat := 4

  /** The `add` sub-command declares the options role-1 .. role-20 and no others. */
  const MaxRolesPerGroup: nat := 20

  predicate Distinct<T(==)>(s: seq<T>) {
    forall i, j :: 0 <= i < j < |s| ==> s[i] != s[j]
  }

  /** Applies f to every element, keeping the order. */
  function MapSeq<A, B>(s: seq<A>, f: A -> B): (r: seq<B>)
    ensures |r| == |s|
    ensures forall i :: 0 <= i < |s| ==> r[i] == f(s[i])
  {
    seq(|s|, i requires 0 <= i < |s| => f(s[i]))
  }

  function RoleNames(roles: seq<Role>): seq<string> {
    MapSeq(roles, (r: Role) => r.name)
  }

  function RoleIds(roles: seq<Role>): seq<nat> {
    MapSeq(roles, (r: Role) => r.id)
  }

  function GroupNames(d: Draft): seq<string> {
    MapSeq(d, (g: Group) => g.name)
  }

  /** A group as `add` admits it: at most twenty roles, no display name twice. */
  predicate ValidGroup(g: Group) {
    |g.roles| <= MaxRolesPerGroup && Distinct(RoleNames(g.roles))
  }

  /** The invariants every draft keeps: at most four groups, group names unique, every group valid. */
  predicate ValidDraft(d: Draft) {
    && |d| <= MaxGroups
    && Distinct(GroupNames(d))
    && forall i :: 0 <= i < |d| ==> ValidGroup(d[i])
  }

  predicate ValidStore(s: Store) {
    forall k :: k in s ==> ValidDraft(s[k])
  }

  /**
   * A role id names one role, so within one guild snapshot equal ids carry
   * equal names; a group with distinct display names therefore never offers
   * the same role twice.
   */
  lemma DistinctNamesGiveDistinctIds(roles: seq<Role>)
    requires forall i, j :: 0 <= i < |roles| && 0 <= j < |roles| && roles[i].id == roles[j].id ==> roles[i] == roles[j]
    requires Distinct(RoleNames(roles))
    ensures Distinct(RoleIds(roles))
  {
  }

  // ---------------------------------------------------------------------
  // Duplicate display names, reported the way grouping by name reports them:
  // every name that occurs more than once, once, in order of first occurrence.
  // ---------------------------------------------------------------------

  /** x occurs at two different positions of s. */
  ghost predicate OccursTwice(s: seq<string>, x: string) {
    exists j, k :: 0 <= j < k < |s| && s[j] == x && s[k] == x
  }

  /** The position of the first occurrence of x in s. */
  function FirstIndex(s: seq<string>, x: string): (i: nat)
    requires x in s
    ensures i < |s| && s[i] == x && x !in s[..i]
  {
    if s[0] == x then 0
    else
      var i := FirstIndex(s[1..], x);
      assert s[..i + 1] == [s[0]] + s[1..][..i];
      1 + i
  }

  lemma FirstIndexIs(s: seq<string>, i: nat)
    requires i < |s| && s[i] !in s[..i]
    ensures FirstIndex(s, s[i]) == i
  {
  }

  /** The elements of r appear in the order of their first occurrence in names. */
  ghost predicate InFirstOccurrenceOrder(names: seq<string>, r: seq<string>) {
    forall p, q :: 0 <= p < q < |r| ==>
      r[p] in names && r[q] in names && FirstIndex(names, r[p]) < FirstIndex(names, r[q])
  }

  /** The repeated names whose first occurrence is at position i or later. */
  function DuplicatesFrom(names: seq<string>, i: nat): (r: seq<string>)
    requires i <= |names|
    ensures forall x :: x in r <==> OccursTwice(names, x) && x !in names[..i]
    ensures forall x :: x in r ==> x in names && FirstIndex(names, x) >= i
    ensures InFirstOccurrenceOrder(names, r)
    decreases |names| - i
  {
    if i == |names| then
      assert names[..i] == names;
      []
    else
      var x := names[i];
      var rest := DuplicatesFrom(names, i + 1);
      assert names[..i + 1] == names[..i] + [x];
      if x !in names[..i] && x in names[i + 1..] then
        HeadOccursTwice(names, i);
        FirstIndexIs(names, i);
        [x] + rest
      else
        LaterOccurrence(names, i);
        rest
  }

  lemma HeadOccursTwice(names: seq<string>, i: nat)
    requires i < |names| && names[i] in names[i + 1..]
    ensures OccursTwice(names, names[i])
  {
  }

  lemma LaterOccurrence(names: seq<string>, i: nat)
    requires i < |names|
    ensures names[i] !in names[..i] && OccursTwice(names, names[i]) ==> names[i] in names[i + 1..]
  {
  }

  /**
   * The display names that `add` reports as duplicates: exactly the names
   * that occur more than once among the supplied roles, each once, in order
   * of first occurrence. None are reported exactly when all names differ.
   */
  function DuplicateNames(roles: seq<Role>): (dups: seq<string>)
    ensures forall x :: x in dups <==> OccursTwice(RoleNames(roles), x)
    ensures Distinct(dups)
    ensures InFirstOccurrenceOrder(RoleNames(roles), dups)
    ensures dups == [] <==> Distinct(RoleNames(roles))
  {
    var names := RoleNames(roles);
    assert names[..0] == [];
    var dups := DuplicatesFrom(names, 0);
    DistinctIffNoneTwice(names);
    if dups == [] then dups
    else
      assert dups[0] in dups;
      dups
  }

  lemma DistinctIffNoneTwice(names: seq<string>)
    ensures Distinct(names) <==> forall x :: !OccursTwice(names, x)
  {
    if !Distinct(names) {
      var i, j :| 0 <= i < j < |names| && names[i] == names[j];
      assert OccursTwice(names, names[i]);
    }
  }
}
