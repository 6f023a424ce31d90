/**
 * The `/roleselector` sub-commands as total operations on the store of
 * drafts. Each takes the store, the caller's key and the sub-command's
 * options, and returns the new store with the outcome the bot reports.
 */
module Session {
  import opened Wrappers
  import opened Drafts
  import opened Commands
  import opened Components

  /** Where `finish` publishes: over an existing message, or as a new message. */
  datatype Target = EditMessage(messageId: string) | NewMessage

  /** What a sub-command reports to the operator. */
  datatype Outcome =
    | Created
    | AlreadyExists
    | Deleted
    | DoesNotExist
    | MaxLength
    | NameExists(name: string)
    | DuplicateValues(names: seq<string>)
    | Added
    | Finished(component: Component, target: Target)
    | UnknownCommand

  datatype Step = Step(store: Store, outcome: Outcome)

  /** Drafts other than the caller's are left exactly as they were. */
  ghost predicate OthersUnchanged(before: Store, after: Store, key: Key) {
    forall k :: k != key ==> (k in after <==> k in before) && (k in before ==> after[k] == before[k])
  }

  /** `create`: open an empty draft for the caller unless one is open already. */
  function Create(store: Store, key: Key): (r: Step)
    ensures r.outcome == Created || r.outcome == AlreadyExists
    ensures r.outcome == Created <==> key !in store
    ensures r.store.Keys == store.Keys + {key}
    ensures forall k :: k in store ==> r.store[k] == store[k]
    ensures key !in store ==> r.store[key] == []
    ensures ValidStore(store) ==> ValidStore(r.store)
  {
    if key in store then Step(store, AlreadyExists)
    else Step(store[key := []], Created)
  }

  /** `delete`: discard the caller's draft. */
  function Delete(store: Store, key: Key): (r: Step)
    ensures r.outcome == Deleted || r.outcome == DoesNotExist
    ensures r.outcome == Deleted <==> key in store
    ensures r.store.Keys == store.Keys - {key}
    ensures forall k :: k in r.store ==> r.store[k] == store[k]
    ensures ValidStore(store) ==> ValidStore(r.store)
  {
    if key in store then Step(store - {key}, Deleted)
    else Step(store, DoesNotExist)
  }

  /**
   * `add`: append one group to the caller's draft. The checks run in this
   * order: the draft exists, it has fewer than four groups, the name is new,
   * no two supplied roles share a display name. Any failed check leaves the
   * store as it was.
   */
  function Add(store: Store, key: Key, options: seq<CommandOption>): (r: Step)
    requires WellFormedAdd(options)
    ensures key !in store ==> r.outcome == DoesNotExist
    ensures key in store && |store[key]| >= MaxGroups ==> r.outcome == MaxLength
    ensures key in store && |store[key]| < MaxGroups && GroupName(options) in GroupNames(store[key]) ==>
      r.outcome == NameExists(GroupName(options))
    ensures r.outcome.DuplicateValues? ==>
      && r.outcome.names != []
      && (forall x :: x in r.outcome.names <==> OccursTwice(RoleNames(RolesOf(options)), x))
      && Distinct(r.outcome.names)
      && InFirstOccurrenceOrder(RoleNames(RolesOf(options)), r.outcome.names)
    ensures r.outcome == Added <==>
      && key in store
      && |store[key]| < MaxGroups
      && GroupName(options) !in GroupNames(store[key])
      && Distinct(RoleNames(RolesOf(options)))
    ensures r.outcome.DuplicateValues? <==>
      && key in store
      && |store[key]| < MaxGroups
      && GroupName(options) !in GroupNames(store[key])
      && !Distinct(RoleNames(RolesOf(options)))
    ensures r.outcome != Added ==> r.store == store
    ensures r.outcome == Added ==>
      && r.store.Keys == store.Keys
      && |r.store[key]| == |store[key]| + 1
      && r.store[key][..|store[key]|] == store[key]
      && r.store[key][|store[key]|] == Group(GroupName(options), RolesOf(options))
    ensures OthersUnchanged(store, r.store, key)
    ensures ValidStore(store) ==> ValidStore(r.store)
  {
    var name := GroupName(options);
    var roles := RolesOf(options);
    if key !in store then Step(store, DoesNotExist)
    else if |store[key]| >= MaxGroups then Step(store, MaxLength)
    else if name in GroupNames(store[key]) then Step(store, NameExists(name))
    else
      var duplicates := DuplicateNames(roles);
      if duplicates != [] then Step(store, DuplicateValues(duplicates))
      else
        var draft := store[key] + [Group(name, roles)];
        assert GroupNames(draft) == GroupNames(store[key]) + [name];
        Step(store[key := draft], Added)
  }

  /**
   * `finish`: render the caller's draft. The draft stays open, so it can be
   * edited and published again.
   */
  function Finish(store: Store, key: Key, options: seq<CommandOption>): (r: Step)
    requires WellFormedFinish(options)
    ensures r.store == store
    ensures r.outcome == DoesNotExist <==> key !in store
    ensures key in store ==> r.outcome.Finished? && r.outcome.component == Render(store[key])
    ensures r.outcome.Finished? ==>
      && (r.outcome.target == NewMessage <==> MessageTarget(options) == None)
      && (r.outcome.target.EditMessage? ==> MessageTarget(options) == Some(r.outcome.target.messageId))
  {
    if key !in store then Step(store, DoesNotExist)
    else
      var target := match MessageTarget(options)
        case Some(id) => EditMessage(id)
        case None => NewMessage;
      Step(store, Finished(Render(store[key]), target))
  }

  /** One `/roleselector` invocation by the user `key` identifies. */
  function Execute(store: Store, key: Key, cmd: Command): (r: Step)
    requires WellFormed(cmd)
    ensures OthersUnchanged(store, r.store, key)
    ensures ValidStore(store) ==> ValidStore(r.store)
    ensures cmd.Finish? || cmd.Unknown? ==> r.store == store
    ensures cmd.Unknown? ==> r.outcome == UnknownCommand
  {
    match cmd
    case Create => Create(store, key)
    case Delete => Delete(store, key)
    case Add(options) => Add(store, key, options)
    case Finish(options) => Finish(store, key, options)
    case Unknown(_) => Step(store, UnknownCommand)
  }

  /** One invocation: who issued it and which sub-command. */
  datatype Event = Event(key: Key, command: Command)

  /** The store after handling the events one at a time, in order. */
  function Run(store: Store, events: seq<Event>): Store
    requires forall i :: 0 <= i < |events| ==> WellFormed(events[i].command)
    decreases |events|
  {
    if events == [] then store
    else Run(Execute(store, events[0].key, events[0].command).store, events[1..])
  }

  /** Handling invocations one at a time never breaks a draft's invariants. */
  lemma {:induction false} RunPreservesValid(store: Store, events: seq<Event>)
    requires forall i :: 0 <= i < |events| ==> WellFormed(events[i].command)
    requires ValidStore(store)
    ensures ValidStore(Run(store, events))
    decreases |events|
  {
    if events != [] {
      RunPreservesValid(Execute(store, events[0].key, events[0].command).store, events[1..]);
    }
  }

  /**
   * From a fresh process, whatever invocations arrive, no draft ever holds
   * more than four groups, two groups with one name, or a group with two
   * roles of one display name.
   */
  lemma ReachableDraftsValid(events: seq<Event>)
    requires forall i :: 0 <= i < |events| ==> WellFormed(events[i].command)
    ensures forall k :: k in Run(map[], events) ==>
      && |Run(map[], events)[k]| <= MaxGroups
      && Distinct(GroupNames(Run(map[], events)[k]))
      && forall i :: 0 <= i < |Run(map[], events)[k]| ==> Distinct(RoleNames(Run(map[], events)[k][i].roles))
  {
    RunPreservesValid(map[], events);
  }

  // ---------------------------------------------------------------------
  // Scenarios
  // ---------------------------------------------------------------------

  /** Two `create`s on one key: the first succeeds, the second finds the draft. */
  lemma CreateTwice(store: Store, key: Key)
    requires key !in store
    ensures Create(store, key).outcome == Created
    ensures Create(Create(store, key).store, key).outcome == AlreadyExists
    ensures Create(Create(store, key).store, key).store == Create(store, key).store
  {
  }

  /** `create` then `delete` leaves the key without a draft and the store as it was. */
  lemma CreateThenDelete(store: Store, key: Key)
    requires key !in store
    ensures Delete(Create(store, key).store, key).outcome == Deleted
    ensures key !in Delete(Create(store, key).store, key).store
    ensures Delete(Create(store, key).store, key).store == store
  {
  }

  /** A group added once cannot be added again under its name. */
  lemma AddSameNameTwice(store: Store, key: Key, options: seq<CommandOption>)
    requires WellFormedAdd(options)
    requires Add(store, key, options).outcome == Added
    requires |store[key]| + 1 < MaxGroups
    ensures Add(Add(store, key, options).store, key, options).outcome == NameExists(GroupName(options))
    ensures Add(Add(store, key, options).store, key, options).store == Add(store, key, options).store
  {
  }

  /** Adds the payloads one after another to one key, collecting the outcomes. */
  function AddEach(store: Store, key: Key, batches: seq<seq<CommandOption>>): (r: (Store, seq<Outcome>))
    requires forall i :: 0 <= i < |batches| ==> WellFormedAdd(batches[i])
    ensures |r.1| == |batches|
    decreases |batches|
  {
    if batches == [] then (store, [])
    else
      var step := Add(store, key, batches[0]);
      var rest := AddEach(step.store, key, batches[1..]);
      (rest.0, [step.outcome] + rest.1)
  }

  /**
   * Payloads with fresh, pairwise different names and no repeated display
   * name are accepted until the draft holds four groups and refused with
   * MaxLength from then on.
   */
  lemma {:induction false} AddEachOutcomes(store: Store, key: Key, batches: seq<seq<CommandOption>>)
    requires forall i :: 0 <= i < |batches| ==> WellFormedAdd(batches[i])
    requires forall i :: 0 <= i < |batches| ==> Distinct(RoleNames(RolesOf(batches[i])))
    requires forall i, j :: 0 <= i < j < |batches| ==> GroupName(batches[i]) != GroupName(batches[j])
    requires key in store
    requires forall i :: 0 <= i < |batches| ==> GroupName(batches[i]) !in GroupNames(store[key])
    ensures forall i :: 0 <= i < |batches| ==>
      AddEach(store, key, batches).1[i] == (if |store[key]| + i < MaxGroups then Added else MaxLength)
    decreases |batches|
  {
    if batches != [] {
      var step := Add(store, key, batches[0]);
      var rest := batches[1..];
      var names := GroupNames(store[key]);
      AddFreshStep(store, key, batches[0]);
      forall i | 0 <= i < |rest|
        ensures GroupName(rest[i]) !in GroupNames(step.store[key])
      {
        assert rest[i] == batches[i + 1];
        assert GroupName(batches[0]) != GroupName(batches[i + 1]);
      }
      AddEachOutcomes(step.store, key, rest);
      var outcomes := AddEach(store, key, batches).1;
      assert outcomes == [step.outcome] + AddEach(step.store, key, rest).1;
      forall i | 0 <= i < |batches|
        ensures outcomes[i] == (if |store[key]| + i < MaxGroups then Added else MaxLength)
      {
        if i > 0 {
          assert outcomes[i] == AddEach(step.store, key, rest).1[i - 1];
        }
      }
    }
  }

  /**
   * One `add` of a fresh name with distinct display names: accepted while
   * the draft has room, appending the name, and refused with MaxLength
   * and no change otherwise.
   */
  lemma AddFreshStep(store: Store, key: Key, options: seq<CommandOption>)
    requires WellFormedAdd(options)
    requires Distinct(RoleNames(RolesOf(options)))
    requires key in store
    requires GroupName(options) !in GroupNames(store[key])
    ensures key in Add(store, key, options).store
    ensures |store[key]| < MaxGroups ==>
      && Add(store, key, options).outcome == Added
      && |Add(store, key, options).store[key]| == |store[key]| + 1
      && GroupNames(Add(store, key, options).store[key]) == GroupNames(store[key]) + [GroupName(options)]
    ensures |store[key]| >= MaxGroups ==>
      Add(store, key, options).outcome == MaxLength && Add(store, key, options).store == store
  {
  }

  /** After `create`, four groups are accepted and the fifth is refused. */
  lemma FifthGroupRefused(store: Store, key: Key, batches: seq<seq<CommandOption>>)
    requires |batches| == 5
    requires forall i :: 0 <= i < |batches| ==> WellFormedAdd(batches[i])
    requires forall i :: 0 <= i < |batches| ==> Distinct(RoleNames(RolesOf(batches[i])))
    requires forall i, j :: 0 <= i < j < |batches| ==> GroupName(batches[i]) != GroupName(batches[j])
    requires key !in store
    ensures AddEach(Create(store, key).store, key, batches).1 == [Added, Added, Added, Added, MaxLength]
  {
    AddEachOutcomes(Create(store, key).store, key, batches);
  }
}
