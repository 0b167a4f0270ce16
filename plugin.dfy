/** The plugin base class of src/Plugins/Plugin.php: a plugin subscribes one
    of its own methods to an event; a missing method or an unknown event is
    logged and never reaches the plugin's caller. `get_class_methods($this)`
    is given as the plugin's set of method names. */
module Plugin {
  import opened Wrappers
  import opened Logging
  import opened Events

  /** Every subscription of `who` in the table names one of its methods. */
  ghost predicate OwnMethodsOnly(t: Table, who: object, methods: set<string>) {
    forall e, p, s :: s in Bucket(BucketsOf(t, e), p) && s.subscriber == who ==> s.methodName in methods
  }

  /** Appending a subscription that keeps to the rule keeps the whole table to it. */
  lemma AppendedKeepsOwnMethods(t: Table, event: string, p: int, s: Subscription, who: object, methods: set<string>)
    requires OwnMethodsOnly(t, who, methods)
    requires s.subscriber == who ==> s.methodName in methods
    ensures OwnMethodsOnly(Appended(t, event, p, s), who, methods)
  {
    forall e, q, x | x in Bucket(BucketsOf(Appended(t, event, p, s), e), q) && x.subscriber == who
      ensures x.methodName in methods
    {
      AppendedBuckets(t, event, p, s, e, q);
    }
  }

  class Plugin {
    /** `get_class_methods($this)`. */
    const methods: set<string>
    const events: Events
    const logger: Logger

    ghost predicate Valid()
      reads this, events
    {
      events.Valid()
    }

    constructor (methods: set<string>, events: Events, logger: Logger)
      requires events.Valid()
      ensures Valid()
      ensures this.methods == methods && this.events == events && this.logger == logger
    {
      this.methods := methods;
      this.events := events;
      this.logger := logger;
    }

    /** `addEvent`: the method defaults to the event name; a method the
        plugin lacks, or an event outside the catalogue, is logged with the
        event and the method and leaves the table as it was; otherwise the
        plugin is subscribed at the given priority. Only a method the plugin
        has reaches the dispatcher, which then holds the event catalogue. */
    method AddEvent(event: string, methodName: Option<string> := None, priority: int := 5)
      requires Valid()
      modifies events, logger
      ensures Valid()
      ensures var m := methodName.GetOr(event);
        var known := event in Catalogue(EventDir(events.systemPath), events.eventFiles);
        && (m !in methods ==>
              events.pluginEvents == old(events.pluginEvents)
              && logger.entries == old(logger.entries) + [LogEntry(MethodNotInClass(m), PluginContext(event, m))])
        && (m in methods && !known ==>
              events.pluginEvents == old(events.pluginEvents)
              && logger.entries == old(logger.entries) + [LogEntry(UnknownEvent(event), PluginContext(event, m))])
        && (m in methods && known ==>
              events.pluginEvents == Appended(old(events.pluginEvents), event, priority, Subscription(this, m))
              && logger.entries == old(logger.entries))
      ensures OwnMethodsOnly(old(events.pluginEvents), this, methods) ==> OwnMethodsOnly(events.pluginEvents, this, methods)
      ensures var m := methodName.GetOr(event);
        events.eventList == if m in methods then Some(Catalogue(EventDir(events.systemPath), events.eventFiles)) else old(events.eventList)
    {
      var m := if methodName.None? then event else methodName.value;
      if m !in methods {
        logger.Error(MethodNotInClass(m), PluginContext(event, m));
        return;
      }
      var added := events.AddPluginEvent(event, this, Some(m), priority);
      if added.Err? {
        logger.Error(added.error, PluginContext(event, m));
        return;
      }
      if OwnMethodsOnly(old(events.pluginEvents), this, methods) {
        AppendedKeepsOwnMethods(old(events.pluginEvents), event, priority, Subscription(this, m), this, methods);
      }
    }

    /** `removeEvent`: its body is commented out in the source, so it changes nothing. */
    method RemoveEvent(event: string)
      ensures events.pluginEvents == old(events.pluginEvents) && logger.entries == old(logger.entries)
    {
    }
  }
}
