/** The event dispatcher of src/Events.php: a memoised catalogue of event
    names, a subscription table event -> priority -> ordered subscriptions,
    the fan-out over priorities 10 down to 1, and the `__call` boundary that
    runs the built-in handler, then the plugins, and logs any failure.
    The directory listing (`glob`) and `method_exists` are given as a list of
    file paths and an abstract predicate; a handler's return value is
    represented by the record of the call. */
module Events {
  import opened Wrappers
  import opened Strings
  import opened Logging
  import Caller

  /** A stored `['object' => $object, 'method' => $method]`. */
  datatype Subscription = Subscription(subscriber: object, methodName: string)

  /** `$pluginObject->$pluginMethod($data)`, standing for its result. */
  datatype PluginCall = PluginCall(subscriber: object, methodName: string, data: seq<string>)

  /** What `runPluginEvent` does: `null` for an event nobody subscribed to,
      the results in call order, or the failure that stopped it together with
      the calls already made. */
  datatype Dispatch =
    | NoSubscribers
    | Completed(results: seq<PluginCall>)
    | Failed(made: seq<PluginCall>, failure: Failure)

  /** The `['event' => ..., 'plugins' => ...]` array `__call` returns. */
  datatype EventReturn = EventReturn(event: Option<Caller.Invocation>, plugins: Option<seq<PluginCall>>)

  type Buckets = map<int, seq<Subscription>>
  type Table = map<string, Buckets>

  /** The namespace `__call` hands to the caller for the built-in handler. */
  const EventNamespace: string := "\\Cerberus\\Events\\Event"

  /** `get_class_methods($this)` for the dispatcher. */
  const EventsMethods: seq<string> :=
    ["__construct", "setBot", "getBot", "__call", "getEventList", "addPluginEvent", "runPluginEvent"]

  // ---------------------------------------------------------------------------
  // the event catalogue

  /** `path/src/Events/`. */
  function EventDir(systemPath: string): string {
    systemPath + "/" + "src" + "/" + "Events" + "/"
  }

  /** The event name a handler file stands for: the directory with `Event` and
      the `.php` ending removed, first letter lower-cased. */
  function ClassEvent(dir: string, file: string): string {
    Lcfirst(ReplaceEach(file, [dir + "Event", ".php"], ["", ""]))
  }

  function ClassEvents(dir: string, files: seq<string>): (r: seq<string>)
    ensures |r| == |files|
    decreases |files|
  {
    if files == [] then [] else ClassEvents(dir, files[..|files| - 1]) + [ClassEvent(dir, files[|files| - 1])]
  }

  /** `'on' === substr($value, 0, 2)`. */
  predicate IsEventName(v: string) {
    StartsWith(v, "on")
  }

  /** The entries that are event names, in order. */
  function KeepEvents(list: seq<string>): seq<string>
    decreases |list|
  {
    if list == [] then []
    else KeepEvents(list[..|list| - 1]) + (if IsEventName(list[|list| - 1]) then [list[|list| - 1]] else [])
  }

  /** What `getEventList` computes. */
  function Catalogue(dir: string, files: seq<string>): seq<string> {
    KeepEvents(ClassEvents(dir, files) + EventsMethods)
  }

  lemma {:induction false} KeepEventsMembers(list: seq<string>, x: string)
    ensures x in KeepEvents(list) <==> x in list && IsEventName(x)
    decreases |list|
  {
    if list != [] {
      KeepEventsMembers(list[..|list| - 1], x);
      assert list == list[..|list| - 1] + [list[|list| - 1]];
    }
  }

  lemma {:induction false} KeepEventsAppend(xs: seq<string>, ys: seq<string>)
    ensures KeepEvents(xs + ys) == KeepEvents(xs) + KeepEvents(ys)
    decreases |ys|
  {
    if ys == [] {
      assert xs + ys == xs;
    } else {
      var ys' := ys[..|ys| - 1];
      assert (xs + ys)[..|xs + ys| - 1] == xs + ys';
      KeepEventsAppend(xs, ys');
    }
  }

  lemma {:induction false} KeepEventsNone(list: seq<string>)
    requires forall i :: 0 <= i < |list| ==> !IsEventName(list[i])
    ensures KeepEvents(list) == []
    decreases |list|
  {
    if list != [] {
      KeepEventsNone(list[..|list| - 1]);
    }
  }

  /** The catalogue holds exactly the names from the handler files and the
      dispatcher's own methods that start with `on`. */
  lemma CatalogueMembers(dir: string, files: seq<string>, x: string)
    ensures x in Catalogue(dir, files) <==> (x in ClassEvents(dir, files) || x in EventsMethods) && IsEventName(x)
  {
    KeepEventsMembers(ClassEvents(dir, files) + EventsMethods, x);
  }

  /** None of the dispatcher's own methods is an event, so the catalogue is
      the handler files' names that start with `on`, in file order. */
  lemma CatalogueIsHandlerFiles(dir: string, files: seq<string>)
    ensures Catalogue(dir, files) == KeepEvents(ClassEvents(dir, files))
  {
    KeepEventsAppend(ClassEvents(dir, files), EventsMethods);
    forall i | 0 <= i < |EventsMethods| ensures !IsEventName(EventsMethods[i]) {
      assert EventsMethods[i][0] != 'o';
    }
    KeepEventsNone(EventsMethods);
    assert KeepEvents(ClassEvents(dir, files)) + [] == KeepEvents(ClassEvents(dir, files));
  }

  /** A handler file `<dir>Event<name>.php` stands for the event `lcfirst(name)`. */
  lemma ClassEventName(dir: string, name: string)
    requires '.' !in name && !Occurs(name + ".php", dir + "Event")
    ensures ClassEvent(dir, dir + "Event" + name + ".php") == Lcfirst(name)
  {
    var prefix := dir + "Event";
    assert dir + "Event" + name + ".php" == prefix + (name + ".php");
    var search: seq<string> := [prefix, ".php"];
    var repl: seq<string> := ["", ""];
    assert search[1..] == [".php"] && repl[1..] == [""];
    ReplacePrefix(prefix, name + ".php", "");
    ReplaceAbsent(name + ".php", prefix, "");
    assert Replace(prefix + (name + ".php"), prefix, "") == name + ".php";
    assert ReplaceEach(prefix + (name + ".php"), search, repl) == ReplaceEach(name + ".php", [".php"], [""]);
    assert ".php"[0] == '.';
    ReplaceSuffix(name, ".php");
    assert ReplaceEach(name + ".php", [".php"], [""]) == ReplaceEach(name, [], []);
  }

  // ---------------------------------------------------------------------------
  // the subscription table

  /** The subscriptions of one priority (none when it has no bucket). */
  function Bucket(b: Buckets, p: int): seq<Subscription> {
    if p in b then b[p] else []
  }

  function BucketsOf(t: Table, event: string): Buckets {
    if event in t then t[event] else map[]
  }

  /** `$this->pluginEvents[$event][$priority][] = $pluginArray`. */
  function Appended(t: Table, event: string, p: int, s: Subscription): Table {
    var b := BucketsOf(t, event);
    t[event := b[p := Bucket(b, p) + [s]]]
  }

  /** Appending adds the subscription at the end of its own bucket and
      changes no other bucket of any event. */
  lemma AppendedBuckets(t: Table, event: string, p: int, s: Subscription, e: string, q: int)
    ensures Bucket(BucketsOf(Appended(t, event, p, s), e), q) ==
      if e == event && q == p then Bucket(BucketsOf(t, e), q) + [s] else Bucket(BucketsOf(t, e), q)
    ensures Appended(t, event, p, s).Keys == t.Keys + {event}
  {
  }

  /** The subscriptions of the first k priorities visited: 10, 9, ..., 11 - k. */
  function Visit(b: Buckets, k: nat): seq<Subscription>
    requires k <= 10
  {
    if k == 0 then [] else Visit(b, k - 1) + Bucket(b, 11 - k)
  }

  /** The order in which `runPluginEvent` visits the subscriptions. */
  function Order(b: Buckets): seq<Subscription> {
    Visit(b, 10)
  }

  lemma {:induction false} VisitPrefix(b: Buckets, k: nat, m: nat)
    requires k <= m <= 10
    ensures Visit(b, k) <= Visit(b, m)
    decreases m
  {
    if k < m {
      VisitPrefix(b, k, m - 1);
    }
  }

  lemma {:induction false} VisitMembers(b: Buckets, k: nat, s: Subscription)
    requires k <= 10
    ensures s in Visit(b, k) <==> exists p :: 11 - k <= p <= 10 && p in b && s in b[p]
    decreases k
  {
    if k > 0 {
      VisitMembers(b, k - 1, s);
    }
  }

  /** Exactly the subscriptions stored at priorities 1 to 10 are visited. */
  lemma OrderMembers(b: Buckets, s: Subscription)
    ensures s in Order(b) <==> exists p :: 1 <= p <= 10 && p in b && s in b[p]
  {
    VisitMembers(b, 10, s);
  }

  lemma {:induction false} VisitSameBuckets(b: Buckets, c: Buckets, k: nat)
    requires k <= 10
    requires forall p :: 1 <= p <= 10 ==> Bucket(b, p) == Bucket(c, p)
    ensures Visit(b, k) == Visit(c, k)
    decreases k
  {
    if k > 0 {
      VisitSameBuckets(b, c, k - 1);
    }
  }

  /** Buckets at priorities outside 1..10 make no difference to the visit. */
  lemma OrderIgnoresOtherPriorities(b: Buckets, c: Buckets)
    requires forall p :: 1 <= p <= 10 ==> Bucket(b, p) == Bucket(c, p)
    ensures Order(b) == Order(c)
  {
    VisitSameBuckets(b, c, 10);
  }

  /** Higher priorities first: one subscription each at 1, 5 and 10 are visited 10, 5, 1. */
  lemma OrderByPriority(b: Buckets, s1: Subscription, s5: Subscription, s10: Subscription)
    requires Bucket(b, 1) == [s1] && Bucket(b, 5) == [s5] && Bucket(b, 10) == [s10]
    requires forall p :: 1 <= p <= 10 && p != 1 && p != 5 && p != 10 ==> Bucket(b, p) == []
    ensures Order(b) == [s10, s5, s1]
  {
    assert Visit(b, 1) == [s10];
    assert Visit(b, 2) == [s10];
    assert Visit(b, 3) == [s10];
    assert Visit(b, 4) == [s10];
    assert Visit(b, 5) == [s10];
    assert Visit(b, 6) == [s10, s5];
    assert Visit(b, 7) == [s10, s5];
    assert Visit(b, 8) == [s10, s5];
    assert Visit(b, 9) == [s10, s5];
  }

  // ---------------------------------------------------------------------------
  // invoking the subscribers

  /** Calling the subscriptions in order: the calls made, and the failure
      of the first subscriber lacking its method, if any. */
  function InvokeAll(subs: seq<Subscription>, data: seq<string>, handlers: set<(object, string)>): (seq<PluginCall>, Option<Failure>)
    decreases |subs|
  {
    if subs == [] then ([], None)
    else
      var (calls, err) := InvokeAll(subs[..|subs| - 1], data, handlers);
      var s := subs[|subs| - 1];
      if err.Some? then (calls, err)
      else if (s.subscriber, s.methodName) in handlers then (calls + [PluginCall(s.subscriber, s.methodName, data)], None)
      else (calls, Some(MissingHandler(s.methodName)))
  }

  /** Reference definition: every subscription called once, in order. */
  function Calls(subs: seq<Subscription>, data: seq<string>): (r: seq<PluginCall>)
    ensures |r| == |subs|
    ensures forall i :: 0 <= i < |subs| ==> r[i] == PluginCall(subs[i].subscriber, subs[i].methodName, data)
  {
    seq(|subs|, i requires 0 <= i < |subs| => PluginCall(subs[i].subscriber, subs[i].methodName, data))
  }

  /** When every subscriber has its method, each is called once, in order. */
  lemma {:induction false} InvokeAllCalls(subs: seq<Subscription>, data: seq<string>, handlers: set<(object, string)>)
    requires forall i :: 0 <= i < |subs| ==> (subs[i].subscriber, subs[i].methodName) in handlers
    ensures InvokeAll(subs, data, handlers) == (Calls(subs, data), None)
    decreases |subs|
  {
    if subs != [] {
      var n := |subs| - 1;
      InvokeAllCalls(subs[..n], data, handlers);
      assert Calls(subs, data) == Calls(subs[..n], data) + [PluginCall(subs[n].subscriber, subs[n].methodName, data)];
    }
  }

  /** After a failure, further subscriptions are not called. */
  lemma {:induction false} InvokeAllAborted(xs: seq<Subscription>, ys: seq<Subscription>, data: seq<string>, handlers: set<(object, string)>)
    requires InvokeAll(xs, data, handlers).1.Some?
    ensures InvokeAll(xs + ys, data, handlers) == InvokeAll(xs, data, handlers)
    decreases |ys|
  {
    if ys == [] {
      assert xs + ys == xs;
    } else {
      var ys' := ys[..|ys| - 1];
      assert (xs + ys)[..|xs + ys| - 1] == xs + ys';
      InvokeAllAborted(xs, ys', data, handlers);
    }
  }

  /** The first subscriber lacking its method stops the fan-out: the ones
      before it have been called, the ones after it are not. */
  lemma InvokeStopsAtMissing(subs: seq<Subscription>, k: nat, data: seq<string>, handlers: set<(object, string)>)
    requires k < |subs|
    requires forall i :: 0 <= i < k ==> (subs[i].subscriber, subs[i].methodName) in handlers
    requires (subs[k].subscriber, subs[k].methodName) !in handlers
    ensures InvokeAll(subs, data, handlers) == (Calls(subs[..k], data), Some(MissingHandler(subs[k].methodName)))
  {
    InvokeAllCalls(subs[..k], data, handlers);
    assert subs[..k + 1][..k] == subs[..k];
    InvokeAllAborted(subs[..k + 1], subs[k + 1..], data, handlers);
    assert subs[..k + 1] + subs[k + 1..] == subs;
  }

  /** What `runPluginEvent($event, $data)` does with the table. */
  function DispatchOf(t: Table, event: string, data: seq<string>, handlers: set<(object, string)>): Dispatch {
    if event !in t then NoSubscribers
    else
      var (calls, err) := InvokeAll(Order(t[event]), data, handlers);
      if err.None? then Completed(calls) else Failed(calls, err.value)
  }

  /** With every method present, the results are one call per visited
      subscription, in priority order; an event nobody subscribed to gives `null`. */
  lemma DispatchCallsInOrder(t: Table, event: string, data: seq<string>, handlers: set<(object, string)>)
    requires event in t
    requires forall s :: s in Order(t[event]) ==> (s.subscriber, s.methodName) in handlers
    ensures DispatchOf(t, event, data, handlers) == Completed(Calls(Order(t[event]), data))
  {
    var subs := Order(t[event]);
    InvokeAllCalls(subs, data, handlers);
  }

  /** The first loop of `getEventList`: the event name of each handler file. */
  method EventClassNames(dir: string, files: seq<string>) returns (names: seq<string>)
    ensures names == ClassEvents(dir, files)
  {
    names := [];
    var i := 0;
    while i < |files|
      invariant 0 <= i <= |files|
      invariant names == ClassEvents(dir, files[..i])
    {
      assert files[..i + 1][..i] == files[..i];
      names := names + [Lcfirst(ReplaceEach(files[i], [dir + "Event", ".php"], ["", ""]))];
      i := i + 1;
    }
    assert files[..i] == files;
  }

  /** The second loop of `getEventList`: the names starting with `on`, in order. */
  method EventNamesOnly(merged: seq<string>) returns (list: seq<string>)
    ensures list == KeepEvents(merged)
  {
    list := [];
    var k := 0;
    while k < |merged|
      invariant 0 <= k <= |merged|
      invariant list == KeepEvents(merged[..k])
    {
      assert merged[..k + 1][..k] == merged[..k];
      if |merged[k]| >= 2 && merged[k][..2] == "on" {
        list := list + [merged[k]];
      }
      k := k + 1;
    }
    assert merged[..k] == merged;
  }

  class Events {
    /** The memoised catalogue (`null` until first computed). */
    var eventList: Option<seq<string>>
    var pluginEvents: Table
    const systemPath: string
    /** `glob($dir . 'EventOn*.php')`: the handler files. */
    const eventFiles: seq<string>
    /** `method_exists`: the (object, method name) pairs that exist. */
    const handlers: set<(object, string)>
    const caller: Caller.Caller
    const logger: Logger

    /** A stored catalogue is the one computed from the handler files. */
    ghost predicate Valid()
      reads this
    {
      eventList.Some? ==> eventList.value == Catalogue(EventDir(systemPath), eventFiles)
    }

    constructor (systemPath: string, eventFiles: seq<string>, handlers: set<(object, string)>,
                 caller: Caller.Caller, logger: Logger)
      ensures Valid()
      ensures eventList == None && pluginEvents == map[]
      ensures this.systemPath == systemPath && this.eventFiles == eventFiles && this.handlers == handlers
      ensures this.caller == caller && this.logger == logger
    {
      eventList := None;
      pluginEvents := map[];
      this.systemPath := systemPath;
      this.eventFiles := eventFiles;
      this.handlers := handlers;
      this.caller := caller;
      this.logger := logger;
    }

    /** `getEventList`: computed on the first call, the stored list afterwards. */
    method GetEventList() returns (list: seq<string>)
      requires Valid()
      modifies this
      ensures Valid()
      ensures list == Catalogue(EventDir(systemPath), eventFiles)
      ensures eventList == Some(list)
      ensures old(eventList).Some? ==> eventList == old(eventList)
      ensures pluginEvents == old(pluginEvents)
    {
      if eventList.Some? {
        return eventList.value;
      }
      var dir := systemPath + "/" + "src" + "/" + "Events" + "/";
      var listClasses := EventClassNames(dir, eventFiles);
      list := EventNamesOnly(listClasses + EventsMethods);
      eventList := Some(list);
    }

    /** `addPluginEvent`: an event outside the catalogue is refused and the
        table is unchanged; otherwise the subscription (the method defaulting
        to the event name) is appended to its bucket. */
    method AddPluginEvent(event: string, subscriber: object, methodName: Option<string> := None, priority: int := 5)
      returns (r: Result<(), Failure>)
      requires Valid()
      modifies this
      ensures Valid()
      ensures eventList == Some(Catalogue(EventDir(systemPath), eventFiles))
      ensures event !in Catalogue(EventDir(systemPath), eventFiles) ==>
        r == Err(UnknownEvent(event)) && pluginEvents == old(pluginEvents)
      ensures event in Catalogue(EventDir(systemPath), eventFiles) ==>
        r == Ok(()) && pluginEvents == Appended(old(pluginEvents), event, priority, Subscription(subscriber, methodName.GetOr(event)))
    {
      var list := GetEventList();
      if event !in list {
        return Err(UnknownEvent(event));
      }
      var m := if methodName.None? then event else methodName.value;
      var buckets := if event in pluginEvents then pluginEvents[event] else map[];
      var bucket := if priority in buckets then buckets[priority] else [];
      pluginEvents := pluginEvents[event := buckets[priority := bucket + [Subscription(subscriber, m)]]];
      return Ok(());
    }

    /** `runPluginEvent`: priorities 10 down to 1, each bucket in insertion
        order; a subscriber lacking its method stops the fan-out. */
    method RunPluginEvent(event: string, data: seq<string>) returns (r: Dispatch)
      ensures r == DispatchOf(pluginEvents, event, data, handlers)
    {
      if event !in pluginEvents {
        return NoSubscribers;
      }
      var b := pluginEvents[event];
      var results: seq<PluginCall> := [];
      var priority := 10;
      while priority > 0
        invariant 0 <= priority <= 10
        invariant InvokeAll(Visit(b, 10 - priority), data, handlers) == (results, None)
      {
        ghost var before := Visit(b, 10 - priority);
        assert Visit(b, 10 - priority + 1) == before + Bucket(b, priority);
        var calls, failure := InvokeBucket(before, Bucket(b, priority), data, results);
        if failure.Some? {
          VisitPrefix(b, 10 - priority + 1, 10);
          ghost var done := Visit(b, 10 - priority + 1);
          assert Order(b) == done + Order(b)[|done|..];
          InvokeAllAborted(done, Order(b)[|done|..], data, handlers);
          return Failed(calls, failure.value);
        }
        results := calls;
        priority := priority - 1;
      }
      return Completed(results);
    }

    /** One bucket of `runPluginEvent`, continuing the calls made so far. */
    method InvokeBucket(ghost before: seq<Subscription>, bucket: seq<Subscription>, data: seq<string>, made: seq<PluginCall>)
      returns (calls: seq<PluginCall>, failure: Option<Failure>)
      requires InvokeAll(before, data, handlers) == (made, None)
      ensures InvokeAll(before + bucket, data, handlers) == (calls, failure)
    {
      calls := made;
      var j := 0;
      assert before + bucket[..j] == before;
      while j < |bucket|
        invariant 0 <= j <= |bucket|
        invariant InvokeAll(before + bucket[..j], data, handlers) == (calls, None)
      {
        var s := bucket[j];
        assert (before + bucket[..j + 1])[..|before + bucket[..j + 1]| - 1] == before + bucket[..j];
        if (s.subscriber, s.methodName) !in handlers {
          assert bucket[..j + 1] == bucket[..j] + [s];
          InvokeAllAborted(before + bucket[..j + 1], bucket[j + 1..], data, handlers);
          assert before + bucket[..j + 1] + bucket[j + 1..] == before + bucket;
          return calls, Some(MissingHandler(s.methodName));
        }
        calls := calls + [PluginCall(s.subscriber, s.methodName, data)];
        j := j + 1;
      }
      assert bucket[..j] == bucket;
      return calls, None;
    }

    /** `__call($name, $arguments)`: the built-in handler through the caller,
        then the plugins; any failure is logged with the name and the
        arguments and yields `null`. The caller fails when the class
        `\Cerberus\Events\Event<Name>` is neither cached nor has a file;
        otherwise its object is cached (created when new) and the call goes
        on to the plugins. */
    method Call(name: string, arguments: seq<string>) returns (r: Option<EventReturn>)
      modifies caller, logger
      ensures pluginEvents == old(pluginEvents)
      ensures var c := Caller.ClassName(EventNamespace, name);
        var cached := c in old(caller.classes);
        var file := Caller.ClassFile(caller.systemPath, c);
        var found := cached || file in caller.files;
        var dispatch := DispatchOf(pluginEvents, name, arguments, handlers);
        && (r.None? <==> !found || dispatch.Failed?)
        && (cached ==> caller.classes == old(caller.classes))
        && (!found ==> caller.classes == old(caller.classes))
        && (!cached && found ==>
              c in caller.classes && fresh(caller.classes[c])
              && caller.classes == old(caller.classes)[c := caller.classes[c]])
        && (!found ==>
              logger.entries == old(logger.entries) + [LogEntry(FileNotFound(file), EventContext(name, arguments))])
        && (found && dispatch.Failed? ==>
              logger.entries == old(logger.entries) + [LogEntry(dispatch.failure, EventContext(name, arguments))])
        && (r.Some? ==>
              && logger.entries == old(logger.entries)
              && r.value.event ==
                   (if cached then
                      if caller.isA(old(caller.classes)[c].className, c) then None
                      else Some(Caller.Invocation(old(caller.classes)[c], name, arguments))
                    else if caller.isA(c, c) then None
                    else Some(Caller.Invocation(caller.classes[c], name, arguments)))
              && r.value.plugins == (if dispatch.Completed? then Some(dispatch.results) else None))
    {
      var event := caller.Call(EventNamespace, name, arguments);
      if event.Err? {
        logger.Error(event.error, EventContext(name, arguments));
        return None;
      }
      var plugins := RunPluginEvent(name, arguments);
      match plugins
      case Failed(_, failure) =>
        logger.Error(failure, EventContext(name, arguments));
        return None;
      case NoSubscribers =>
        return Some(EventReturn(event.value, None));
      case Completed(results) =>
        return Some(EventReturn(event.value, Some(results)));
    }
  }
}
