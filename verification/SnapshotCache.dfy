/** ProxyClient.java: the attribute cache that learns which attributes of an MBean are asked for. */
module SnapshotCache {

  type ObjectName = string

  datatype Value = Null | Object(id: int)

  datatype Error = IOFailure | InstanceNotFound | AttributeNotFound | AttributeFailed(code: int)

  datatype Result<+T> = Ok(value: T) | Err(error: Error)

  // ----- the server behind the connection -----

  datatype Attribute = Readable(value: Value) | Throwing(code: int)

  datatype Server = Server(up: bool, beans: map<ObjectName, map<string, Attribute>>)

  type NameValueMap = map<string, Value>

  /** MBeanServerConnection.getAttributes: attributes that do not exist or throw are left out. */
  function Fetch(s: Server, obj: ObjectName, names: set<string>): (r: Result<NameValueMap>)
  {
    if !s.up then Err(IOFailure)
    else if obj !in s.beans then Err(InstanceNotFound)
    else Ok(map n | n in names && n in s.beans[obj] && s.beans[obj][n].Readable? :: s.beans[obj][n].value)
  }

  /** MBeanServerConnection.getAttribute. */
  function ReadOne(s: Server, obj: ObjectName, name: string): (r: Result<Value>)
    ensures s.up && obj in s.beans && name in s.beans[obj] && s.beans[obj][name].Readable? ==>
      r == Ok(s.beans[obj][name].value)
    ensures r.Ok? ==> s.up && obj in s.beans && name in s.beans[obj] && s.beans[obj][name].Readable?
  {
    if !s.up then Err(IOFailure)
    else if obj !in s.beans then Err(InstanceNotFound)
    else if name !in s.beans[obj] then Err(AttributeNotFound)
    else match s.beans[obj][name]
      case Readable(v) => Ok(v)
      case Throwing(c) => Err(AttributeFailed(c))
  }

  /** The attribute list for the names that have a value, in the order asked for. */
  function Listed(values: NameValueMap, names: seq<string>): (list: seq<(string, Value)>)
  {
    if names == [] then []
    else Listed(values, names[..|names| - 1])
         + if names[|names| - 1] in values then [(names[|names| - 1], values[names[|names| - 1]])] else []
  }

  /** The places of the names asked for that have a value, and the pairs listed for them; a value may be null. */
  lemma {:induction false} ListedIs(values: NameValueMap, names: seq<string>) returns (at: seq<nat>)
    ensures |at| == |Listed(values, names)|
    ensures forall k, l :: 0 <= k < l < |at| ==> at[k] < at[l]
    ensures forall k :: 0 <= k < |at| ==>
      && at[k] < |names| && names[at[k]] in values
      && Listed(values, names)[k] == (names[at[k]], values[names[at[k]]])
    ensures forall j :: 0 <= j < |names| && names[j] in values ==> j in at
  {
    at := ListedPlaces(values, names);
    hide Listed;
  }

  ghost predicate PairsAt(values: NameValueMap, names: seq<string>, at: seq<nat>, list: seq<(string, Value)>)
  {
    && |at| == |list| && (forall k, l :: 0 <= k < l < |at| ==> at[k] < at[l])
    && (forall k :: 0 <= k < |at| ==>
          at[k] < |names| && names[at[k]] in values && list[k] == (names[at[k]], values[names[at[k]]]))
    && forall j :: 0 <= j < |names| && names[j] in values ==> j in at
  }

  lemma {:induction false} ListedPlaces(values: NameValueMap, names: seq<string>) returns (at: seq<nat>)
    ensures PairsAt(values, names, at, Listed(values, names))
  {
    hide Listed, PairsAt;
    NextListed(values, names);
    if names == [] {
      at := [];
      NoPairs(values);
    } else {
      var n := |names| - 1;
      at := ListedPlaces(values, names[..n]);
      PairsNext(values, names[..n], names[n], at, Listed(values, names[..n]));
      assert names[..n] + [names[n]] == names;
      if names[n] in values {
        at := at + [n];
      }
    }
  }

  lemma NoPairs(values: NameValueMap)
    ensures PairsAt(values, [], [], [])
  {
  }

  lemma PairsNext(values: NameValueMap, names: seq<string>, name: string, at: seq<nat>, list: seq<(string, Value)>)
    requires PairsAt(values, names, at, list)
    ensures name !in values ==> PairsAt(values, names + [name], at, list)
    ensures name in values ==> PairsAt(values, names + [name], at + [|names|], list + [(name, values[name])])
  {
    var more := names + [name];
    assert forall j :: 0 <= j < |names| ==> more[j] == names[j];
    if name in values {
      var at' := at + [|names|];
      assert at'[|at|] == |names|;
      assert forall k :: 0 <= k < |at| ==> at'[k] == at[k];
    }
  }

  lemma NextListed(values: NameValueMap, names: seq<string>)
    ensures names == [] ==> Listed(values, names) == []
    ensures names != [] ==>
      var n := |names| - 1;
      Listed(values, names) ==
        if names[n] in values then Listed(values, names[..n]) + [(names[n], values[names[n]])]
        else Listed(values, names[..n])
  {
  }

  function NameSet(names: seq<string>): set<string>
  {
    set n | n in names
  }

  /** What getAttributes called directly on the server returns. */
  function ReadList(s: Server, obj: ObjectName, names: seq<string>): (r: Result<seq<(string, Value)>>)
  {
    match Fetch(s, obj, NameSet(names))
    case Err(e) => Err(e)
    case Ok(values) => Ok(Listed(values, names))
  }

  // ----- the cache -----

  datatype Cache = Cache(values: map<ObjectName, NameValueMap>, names: map<ObjectName, set<string>>)

  predicate Hits(c: Cache, obj: ObjectName, names: set<string>)
  {
    obj in c.values && names <= c.values[obj].Keys
  }

  /** The names a miss asks the server for: the new ones and all that were learned. */
  function Wanted(c: Cache, obj: ObjectName, names: set<string>): set<string>
  {
    names + if obj in c.names then c.names[obj] else {}
  }

  /** getCachedAttributes: the cache afterwards and the map handed to the caller. */
  function Lookup(c: Cache, s: Server, obj: ObjectName, names: set<string>): (r: (Cache, Result<NameValueMap>))
  {
    if Hits(c, obj, names) then (c, Ok(c.values[obj]))
    else
      var wanted := Wanted(c, obj, names);
      match Fetch(s, obj, wanted)
      case Err(e) => (c, Err(e))
      case Ok(values) => (Cache(c.values[obj := values], c.names[obj := wanted]), Ok(values))
  }

  /** In terms of the server: a hit answers from the cache, a miss fetches the names together with the learned ones. */
  lemma LookupIs(c: Cache, s: Server, obj: ObjectName, names: set<string>)
    ensures var (c', r) := Lookup(c, s, obj, names);
      if obj in c.values && forall n :: n in names ==> n in c.values[obj] then
        c' == c && r == Ok(c.values[obj])
      else if !s.up then
        c' == c && r == Err(IOFailure)
      else if obj !in s.beans then
        c' == c && r == Err(InstanceNotFound)
      else
        var wanted := if obj in c.names then names + c.names[obj] else names;
        && r.Ok? && c' == Cache(c.values[obj := r.value], c.names[obj := wanted])
        && (forall n :: n in r.value <==> n in wanted && n in s.beans[obj] && s.beans[obj][n].Readable?)
        && forall n :: n in r.value ==> s.beans[obj][n] == Readable(r.value[n])
  {
    assert Hits(c, obj, names) <==> obj in c.values && forall n :: n in names ==> n in c.values[obj];
    assert Wanted(c, obj, names) == if obj in c.names then names + c.names[obj] else names;
    hide Hits, Wanted;
  }

  function Flushed(c: Cache): Cache
  {
    c.(values := map[])
  }

  /** getAttribute once it has its map: fall back on the server for a name the map lacks. */
  function AnswerOne(looked: Result<NameValueMap>, s: Server, obj: ObjectName, name: string): Result<Value>
  {
    match looked
    case Err(e) => Err(e)
    case Ok(values) => if name in values then Ok(values[name]) else ReadOne(s, obj, name)
  }

  function AnswerList(looked: Result<NameValueMap>, names: seq<string>): Result<seq<(string, Value)>>
  {
    match looked
    case Err(e) => Err(e)
    case Ok(values) => Ok(Listed(values, names))
  }

  // ----- the object -----

  /** The connection; other clients change the server behind it. */
  class Connection {
    var server: Server

    constructor (server: Server)
      ensures this.server == server
    {
      this.server := server;
    }

    method GetAttributes(obj: ObjectName, names: set<string>) returns (r: Result<NameValueMap>)
      ensures r == Fetch(server, obj, names)
    {
      r := Fetch(server, obj, names);
    }

    method GetAttribute(obj: ObjectName, name: string) returns (r: Result<Value>)
      ensures r == ReadOne(server, obj, name)
    {
      r := ReadOne(server, obj, name);
    }
  }

  class SnapshotInvocationHandler {
    const conn: Connection
    var cachedValues: map<ObjectName, NameValueMap>
    var cachedNames: map<ObjectName, set<string>>

    ghost function Contents(): Cache
      reads this
    {
      Cache(cachedValues, cachedNames)
    }

    constructor (conn: Connection)
      ensures this.conn == conn && Contents() == Cache(map[], map[])
    {
      this.conn := conn;
      cachedValues, cachedNames := map[], map[];
    }

    method Flush()
      modifies this
      ensures Contents() == Flushed(old(Contents()))
      ensures cachedValues == map[] && cachedNames == old(cachedNames)
    {
      cachedValues := map[];
    }

    method GetCachedAttributes(obj: ObjectName, attrNames: set<string>) returns (r: Result<NameValueMap>)
      modifies this
      ensures (Contents(), r) == Lookup(old(Contents()), conn.server, obj, attrNames)
    {
      if obj in cachedValues {
        var values := cachedValues[obj];
        if attrNames <= values.Keys {
          return Ok(values);
        }
      }
      var names := attrNames;
      if obj in cachedNames {
        names := names + cachedNames[obj];
      }
      assert names == Wanted(Contents(), obj, attrNames);
      var attrs := conn.GetAttributes(obj, names);
      if attrs.Err? {
        return Err(attrs.error);
      }
      var values := attrs.value;
      cachedValues := cachedValues[obj := values];
      cachedNames := cachedNames[obj := names];
      r := Ok(values);
    }

    method GetAttribute(obj: ObjectName, attrName: string) returns (r: Result<Value>)
      modifies this
      ensures Contents() == Lookup(old(Contents()), conn.server, obj, {attrName}).0
      ensures r == AnswerOne(Lookup(old(Contents()), conn.server, obj, {attrName}).1, conn.server, obj, attrName)
      ensures var looked := Lookup(old(Contents()), conn.server, obj, {attrName}).1;
        r == if looked.Err? then Err(looked.error)
             else if attrName in looked.value then Ok(looked.value[attrName])
             else ReadOne(conn.server, obj, attrName)
    {
      var values := GetCachedAttributes(obj, {attrName});
      if values.Err? {
        return Err(values.error);
      }
      if attrName in values.value {
        return Ok(values.value[attrName]);
      }
      r := conn.GetAttribute(obj, attrName);
    }

    /** The values found for the names asked for, in the order asked; at are the places of those names. */
    method GetAttributes(obj: ObjectName, attrNames: seq<string>)
      returns (r: Result<seq<(string, Value)>>, ghost at: seq<nat>)
      modifies this
      ensures Contents() == Lookup(old(Contents()), conn.server, obj, NameSet(attrNames)).0
      ensures r == AnswerList(Lookup(old(Contents()), conn.server, obj, NameSet(attrNames)).1, attrNames)
      ensures var looked := Lookup(old(Contents()), conn.server, obj, set n | n in attrNames).1;
        if looked.Err? then r == Err(looked.error) else
          && r.Ok? && |at| == |r.value| && (forall k, l :: 0 <= k < l < |at| ==> at[k] < at[l])
          && (forall k :: 0 <= k < |at| ==>
                && at[k] < |attrNames| && attrNames[at[k]] in looked.value
                && r.value[k] == (attrNames[at[k]], looked.value[attrNames[at[k]]]))
          && forall j :: 0 <= j < |attrNames| && attrNames[j] in looked.value ==> j in at
    {
      at := [];
      var values := GetCachedAttributes(obj, NameSet(attrNames));
      if values.Err? {
        return Err(values.error), [];
      }
      var list := [];
      var i := 0;
      while i < |attrNames|
        invariant 0 <= i <= |attrNames|
        invariant list == Listed(values.value, attrNames[..i])
      {
        assert attrNames[..i + 1][..i] == attrNames[..i];
        if attrNames[i] in values.value {
          list := list + [(attrNames[i], values.value[attrNames[i]])];
        }
        i := i + 1;
      }
      assert attrNames[..i] == attrNames;
      at := ListedIs(values.value, attrNames);
      r := Ok(list);
    }
  }

  // ----- all interleavings -----

  /** A call between its synchronized lookup and its answer. */
  datatype Call = Call(obj: ObjectName, names: seq<string>, looked: Result<NameValueMap>, flushedAt: nat, lookedAt: nat)

  /**
   A run of the system: history holds every state the server has had, flushedAt is the position in it
   at the last flush, and calls are those in progress, by thread.
   */
  datatype System = System(cache: Cache, history: seq<Server>, flushedAt: nat, calls: map<int, Call>)

  datatype Event =
    | Flush
    | ServerChange(server: Server)
    | Begin(thread: int, obj: ObjectName, names: seq<string>)   // the synchronized lookup
    | Finish(thread: int)                                       // the answer is handed out

  function Now(s: System): Server
    requires s.history != []
  {
    s.history[|s.history| - 1]
  }

  function Initial(server: Server): System
  {
    System(Cache(map[], map[]), [server], 0, map[])
  }

  function Step(s: System, e: Event): (r: System)
    requires s.history != []
    ensures r.history != []
  {
    match e
    case Flush => s.(cache := Flushed(s.cache), flushedAt := |s.history| - 1)
    case ServerChange(server) => s.(history := s.history + [server])
    case Begin(t, obj, names) =>
      var (cache, looked) := Lookup(s.cache, Now(s), obj, NameSet(names));
      s.(cache := cache, calls := s.calls[t := Call(obj, names, looked, s.flushedAt, |s.history| - 1)])
    case Finish(t) => s.(calls := s.calls - {t})
  }

  function Run(server: Server, events: seq<Event>): (s: System)
    ensures s.history != []
  {
    if events == [] then Initial(server)
    else Step(Run(server, events[..|events| - 1]), events[|events| - 1])
  }

  /** Only a server change lengthens the history, and only a flush moves its mark. */
  lemma StepMarks(s: System, e: Event)
    requires s.history != []
    ensures Step(s, e).history == if e.ServerChange? then s.history + [e.server] else s.history
    ensures Step(s, e).flushedAt == if e.Flush? then |s.history| - 1 else s.flushedAt
  {
  }

  /** The history ends with the last change of the server. */
  lemma {:induction false} NowIsLatest(server: Server, events: seq<Event>, k: nat)
    requires k <= |events| && forall j :: k <= j < |events| ==> !events[j].ServerChange?
    requires k > 0 ==> events[k - 1].ServerChange?
    ensures Now(Run(server, events)) == if k == 0 then server else events[k - 1].server
    ensures Run(server, events).history == Run(server, events[..k]).history
  {
    hide Step;
    if k == |events| {
      assert events[..k] == events;
      if k > 0 {
        StepMarks(Run(server, events[..k - 1]), events[k - 1]);
      }
    } else {
      var n := |events| - 1;
      assert events[..n][..k] == events[..k] && forall j :: 0 <= j < n ==> events[..n][j] == events[j];
      NowIsLatest(server, events[..n], k);
      StepMarks(Run(server, events[..n]), events[n]);
    }
  }

  /** flushedAt is where the history stood at the last flush, or at the start. */
  lemma {:induction false} FlushedAtIs(server: Server, events: seq<Event>, k: nat)
    requires k <= |events| && forall j :: k <= j < |events| ==> !events[j].Flush?
    requires k > 0 ==> events[k - 1].Flush?
    ensures Run(server, events).flushedAt == |Run(server, events[..k]).history| - 1
  {
    hide Step;
    if k == |events| {
      assert events[..k] == events;
      if k > 0 {
        StepMarks(Run(server, events[..k - 1]), events[k - 1]);
      }
    } else {
      var n := |events| - 1;
      assert events[..n][..k] == events[..k] && forall j :: 0 <= j < n ==> events[..n][j] == events[j];
      FlushedAtIs(server, events[..n], k);
      StepMarks(Run(server, events[..n]), events[n]);
    }
  }

  /** A call in progress holds what its lookup found, with the flush and the server of that moment. */
  lemma {:induction false} CallIs(server: Server, events: seq<Event>, t: int) returns (k: nat)
    requires t in Run(server, events).calls
    ensures k < |events| && events[k].Begin? && events[k].thread == t
    ensures var s := Run(server, events[..k]);
      Run(server, events).calls[t] == Call(events[k].obj, events[k].names,
        Lookup(s.cache, Now(s), events[k].obj, NameSet(events[k].names)).1, s.flushedAt, |s.history| - 1)
  {
    hide Lookup;
    var n := |events| - 1;
    if events[n].Begin? && events[n].thread == t {
      k := n;
    } else {
      k := CallIs(server, events[..n], t);
      assert events[..n][..k] == events[..k] && events[..n][k] == events[k];
    }
  }

  /** A map of values that one fetch between two points of the history returned. */
  ghost predicate FetchedBetween(s: System, obj: ObjectName, names: set<string>, values: NameValueMap,
                                 from: nat, upto: nat)
    requires s.history != []
  {
    exists k :: from <= k <= upto && k < |s.history| && Fetch(s.history[k], obj, names) == Ok(values)
  }

  /** Every cached map came from one fetch for the learned names since the last flush. */
  ghost predicate CacheIsFresh(s: System)
    requires s.history != []
  {
    s.cache.values.Keys <= s.cache.names.Keys
    && forall obj :: obj in s.cache.values ==>
      s.cache.values[obj].Keys <= s.cache.names[obj]
      && FetchedBetween(s, obj, s.cache.names[obj], s.cache.values[obj], s.flushedAt, |s.history| - 1)
  }

  /** Every call in progress uses the values of one fetch made no earlier than the flush before its lookup. */
  ghost predicate CallIsConsistent(s: System, c: Call)
    requires s.history != []
  {
    c.flushedAt <= c.lookedAt < |s.history|
    && match c.looked
      case Ok(values) => exists names: set<string> ::
        NameSet(c.names) <= names && FetchedBetween(s, c.obj, names, values, c.flushedAt, c.lookedAt)
      case Err(e) => exists names: set<string> ::
        NameSet(c.names) <= names && Fetch(s.history[c.lookedAt], c.obj, names) == Err(e)
  }

  ghost predicate Invariant(s: System)
  {
    s.history != [] && s.flushedAt < |s.history| && CacheIsFresh(s)
    && forall t :: t in s.calls ==> CallIsConsistent(s, s.calls[t])
  }

  // ----- what every step keeps -----

  lemma MoreHistory(s: System, s': System, obj: ObjectName, names: set<string>, values: NameValueMap,
                    from: nat, upto: nat, upto': nat)
    requires s.history != [] && s.history <= s'.history && upto <= upto'
    requires FetchedBetween(s, obj, names, values, from, upto)
    ensures FetchedBetween(s', obj, names, values, from, upto')
  {
    var k :| from <= k <= upto && k < |s.history| && Fetch(s.history[k], obj, names) == Ok(values);
    assert s'.history[k] == s.history[k];
  }

  lemma CallsStayConsistent(s: System, s': System, c: Call)
    requires s.history != [] && s.history <= s'.history && CallIsConsistent(s, c)
    ensures CallIsConsistent(s', c)
  {
    match c.looked
    case Ok(values) =>
      var names: set<string> :|
        NameSet(c.names) <= names && FetchedBetween(s, c.obj, names, values, c.flushedAt, c.lookedAt);
      MoreHistory(s, s', c.obj, names, values, c.flushedAt, c.lookedAt, c.lookedAt);
    case Err(e) =>
  }

  lemma CacheStaysFresh(s: System, s': System)
    requires s.history != [] && s.history <= s'.history && CacheIsFresh(s)
    requires s'.cache == s.cache && s'.flushedAt == s.flushedAt
    ensures CacheIsFresh(s')
  {
    forall obj | obj in s.cache.values
      ensures FetchedBetween(s', obj, s.cache.names[obj], s.cache.values[obj], s.flushedAt, |s'.history| - 1)
    {
      MoreHistory(s, s', obj, s.cache.names[obj], s.cache.values[obj], s.flushedAt, |s.history| - 1, |s'.history| - 1);
    }
  }

  lemma FetchNamesWanted(server: Server, obj: ObjectName, names: set<string>)
    ensures Fetch(server, obj, names).Ok? ==> Fetch(server, obj, names).value.Keys <= names
  {
  }

  lemma HitKeeps(s: System, t: int, obj: ObjectName, names: seq<string>)
    requires Invariant(s) && Hits(s.cache, obj, NameSet(names))
    ensures var s' := Step(s, Begin(t, obj, names));
      CacheIsFresh(s') && CallIsConsistent(s', s'.calls[t])
  {
    hide Fetch, ReadOne, Wanted;
    var s' := Step(s, Begin(t, obj, names));
    var now := |s.history| - 1;
    CacheStaysFresh(s, s');
    assert NameSet(names) <= s.cache.names[obj];
    assert FetchedBetween(s', obj, s.cache.names[obj], s.cache.values[obj], s.flushedAt, now);
  }

  lemma MissKeeps(s: System, t: int, obj: ObjectName, names: seq<string>)
    requires Invariant(s) && !Hits(s.cache, obj, NameSet(names))
    ensures var s' := Step(s, Begin(t, obj, names));
      CacheIsFresh(s') && CallIsConsistent(s', s'.calls[t])
  {
    var s' := Step(s, Begin(t, obj, names));
    var now := |s.history| - 1;
    var wanted := Wanted(s.cache, obj, NameSet(names));
    FetchNamesWanted(Now(s), obj, wanted);
    assert Fetch(s'.history[now], obj, wanted) == s'.calls[t].looked;
    forall o | o in s'.cache.values
      ensures o in s'.cache.names && s'.cache.values[o].Keys <= s'.cache.names[o]
      ensures FetchedBetween(s', o, s'.cache.names[o], s'.cache.values[o], s.flushedAt, now)
    {
      if o in s.cache.values && s'.cache.values[o] == s.cache.values[o] && s'.cache.names[o] == s.cache.names[o] {
        MoreHistory(s, s', o, s.cache.names[o], s.cache.values[o], s.flushedAt, now, now);
      }
    }
  }

  /** A synchronized lookup keeps the cache fresh and yields a consistent call. */
  lemma LookupKeeps(s: System, t: int, obj: ObjectName, names: seq<string>)
    requires Invariant(s)
    ensures var s' := Step(s, Begin(t, obj, names));
      CacheIsFresh(s') && CallIsConsistent(s', s'.calls[t])
  {
    hide CallIsConsistent, CacheIsFresh, Lookup;
    if Hits(s.cache, obj, NameSet(names)) {
      HitKeeps(s, t, obj, names);
    } else {
      MissKeeps(s, t, obj, names);
    }
  }

  lemma StepKeeps(s: System, e: Event)
    requires Invariant(s)
    ensures Invariant(Step(s, e))
  {
    hide CallIsConsistent, CacheIsFresh, Lookup;
    var s' := Step(s, e);
    assert s.history <= s'.history;
    match e {
      case Flush => EmptyCacheIsFresh(s');
      case ServerChange(server) => CacheStaysFresh(s, s');
      case Begin(t, obj, names) => LookupKeeps(s, t, obj, names);
      case Finish(t) => CacheStaysFresh(s, s');
    }
    forall t | t in s'.calls
      ensures CallIsConsistent(s', s'.calls[t])
    {
      if t in s.calls && s'.calls[t] == s.calls[t] {
        CallsStayConsistent(s, s', s.calls[t]);
      }
    }
  }

  lemma EmptyCacheIsFresh(s: System)
    requires s.history != [] && s.cache.values == map[]
    ensures CacheIsFresh(s)
  {
  }

  /** Over every interleaving: what is cached is learned and fresh, and every call is consistent. */
  lemma {:induction false} RunKeeps(server: Server, events: seq<Event>)
    ensures Invariant(Run(server, events))
  {
    if events == [] {
    } else {
      RunKeeps(server, events[..|events| - 1]);
      StepKeeps(Run(server, events[..|events| - 1]), events[|events| - 1]);
    }
  }

  /** Learned names are never forgotten, not even by a flush. */
  lemma {:induction false} LearnedNamesGrow(server: Server, events: seq<Event>, n: nat, obj: ObjectName)
    requires n <= |events| && obj in Run(server, events[..n]).cache.names
    ensures obj in Run(server, events).cache.names
      && Run(server, events[..n]).cache.names[obj] <= Run(server, events).cache.names[obj]
  {
    if n == |events| {
      assert events[..n] == events;
    } else {
      var shorter := events[..|events| - 1];
      assert shorter[..n] == events[..n];
      LearnedNamesGrow(server, shorter, n, obj);
    }
  }

  /** And nothing is learned that was not asked for. */
  lemma {:induction false} LearnedNamesWereAsked(server: Server, events: seq<Event>, obj: ObjectName, name: string)
    requires obj in Run(server, events).cache.names && name in Run(server, events).cache.names[obj]
    ensures exists k :: 0 <= k < |events| && events[k].Begin? && events[k].obj == obj && name in events[k].names
  {
    var n := |events| - 1;
    var s := Run(server, events[..n]);
    if obj in s.cache.names && name in s.cache.names[obj] {
      LearnedNamesWereAsked(server, events[..n], obj, name);
      var k :| 0 <= k < n && events[..n][k].Begin? && events[..n][k].obj == obj && name in events[..n][k].names;
      assert events[k] == events[..n][k];
    } else {
      StepLearns(s, events[n], obj, name);
    }
  }

  lemma StepLearns(s: System, e: Event, obj: ObjectName, name: string)
    requires s.history != [] && obj in Step(s, e).cache.names && name in Step(s, e).cache.names[obj]
    ensures (obj in s.cache.names && name in s.cache.names[obj]) || (e.Begin? && e.obj == obj && name in e.names)
  {
  }

  /** A lookup that fails leaves values and learned names as they were. */
  lemma FailedLookupChangesNothing(c: Cache, s: Server, obj: ObjectName, names: set<string>)
    ensures Lookup(c, s, obj, names).1.Err? ==> Lookup(c, s, obj, names).0 == c
  {
  }

  /** After a flush, one miss brings back every learned name that the server can still read. */
  lemma MissRefreshesAllLearned(c: Cache, s: Server, obj: ObjectName, names: set<string>, learned: string)
    requires obj in c.names && learned in c.names[obj] && !Hits(c, obj, names)
    requires Lookup(c, s, obj, names).1.Ok?
    ensures var values := Lookup(c, s, obj, names).0.values[obj];
      (learned in values <==> ReadOne(s, obj, learned).Ok?)
      && (learned in values ==> ReadOne(s, obj, learned) == Ok(values[learned]))
  {
  }

  // ----- agreement with the server -----

  lemma {:induction false} ListedDependsOnNames(v: NameValueMap, w: NameValueMap, names: seq<string>)
    requires forall n :: n in names ==> (n in v <==> n in w) && (n in v ==> v[n] == w[n])
    ensures Listed(v, names) == Listed(w, names)
  {
    if names != [] {
      ListedDependsOnNames(v, w, names[..|names| - 1]);
    }
  }

  /** No server change from the flush before the lookup until now. */
  ghost predicate ServerUnchanged(s: System, c: Call)
    requires s.history != []
  {
    forall k :: c.flushedAt <= k < |s.history| ==> s.history[k] == Now(s)
  }

  /** Then what the call holds is what a direct fetch for its names would give, on those names. */
  lemma CallSeesServer(s: System, c: Call)
    requires Invariant(s) && CallIsConsistent(s, c) && ServerUnchanged(s, c)
    ensures c.looked.Err? <==> Fetch(Now(s), c.obj, NameSet(c.names)).Err?
    ensures c.looked.Err? ==> Fetch(Now(s), c.obj, NameSet(c.names)) == Err(c.looked.error)
    ensures c.looked.Ok? ==> forall n :: n in c.names ==>
      (n in c.looked.value <==> ReadOne(Now(s), c.obj, n).Ok?)
      && (n in c.looked.value ==> ReadOne(Now(s), c.obj, n) == Ok(c.looked.value[n]))
  {
    if c.looked.Ok? {
      var names: set<string> :|
        NameSet(c.names) <= names && FetchedBetween(s, c.obj, names, c.looked.value, c.flushedAt, c.lookedAt);
      var k :| c.flushedAt <= k <= c.lookedAt && Fetch(s.history[k], c.obj, names) == Ok(c.looked.value);
      assert s.history[k] == Now(s);
    } else {
      assert s.history[c.lookedAt] == Now(s);
    }
  }

  /** While the server has not changed since the last flush, every answer is a direct read. */
  lemma AnswersAreDirectReads(s: System, c: Call)
    requires Invariant(s) && CallIsConsistent(s, c) && ServerUnchanged(s, c)
    ensures AnswerList(c.looked, c.names) == ReadList(Now(s), c.obj, c.names)
    ensures forall n :: c.names == [n] ==> AnswerOne(c.looked, Now(s), c.obj, n) == ReadOne(Now(s), c.obj, n)
  {
    CallSeesServer(s, c);
    var direct := Fetch(Now(s), c.obj, NameSet(c.names));
    if direct.Ok? {
      ListedDependsOnNames(c.looked.value, direct.value, c.names);
    }
    forall n | c.names == [n]
      ensures AnswerOne(c.looked, Now(s), c.obj, n) == ReadOne(Now(s), c.obj, n)
    {
      assert n in c.names;
    }
  }

  /**
   The same for any run: a call in progress, answered now, lists exactly the names that can be read now,
   each with the value read, in the order asked; at are their places.
   */
  lemma RunAnswersAreDirectReads(server: Server, events: seq<Event>, t: int) returns (at: seq<nat>)
    requires t in Run(server, events).calls
    requires ServerUnchanged(Run(server, events), Run(server, events).calls[t])
    ensures var s := Run(server, events); var c := s.calls[t];
      && AnswerList(c.looked, c.names) == ReadList(Now(s), c.obj, c.names)
      && forall n :: c.names == [n] ==> AnswerOne(c.looked, Now(s), c.obj, n) == ReadOne(Now(s), c.obj, n)
    ensures var s := Run(server, events); var c := s.calls[t]; var list := AnswerList(c.looked, c.names);
      && (list.Err? ==> forall n :: ReadOne(Now(s), c.obj, n) == Err(list.error))
      && (list.Ok? ==> ListsReads(Now(s), c.obj, c.names, list.value, at))
  {
    hide CallIsConsistent, CacheIsFresh, Step, AnswerOne, ReadOne, Fetch;
    RunKeeps(server, events);
    var s := Run(server, events);
    var c := s.calls[t];
    AnswersAreDirectReads(s, c);
    CallSeesServer(s, c);
    at := [];
    if c.looked.Ok? {
      at := ListedIs(c.looked.value, c.names);
    } else {
      FailsForAll(Now(s), c.obj, NameSet(c.names));
    }
  }

  /** The list has the names at the given places, each with the value read, and no other name can be read. */
  ghost predicate ListsReads(s: Server, obj: ObjectName, names: seq<string>, list: seq<(string, Value)>, at: seq<nat>)
  {
    && |at| == |list| && (forall k, l :: 0 <= k < l < |at| ==> at[k] < at[l])
    && (forall k :: 0 <= k < |at| ==>
          at[k] < |names| && list[k].0 == names[at[k]] && ReadOne(s, obj, names[at[k]]) == Ok(list[k].1))
    && forall j :: 0 <= j < |names| && ReadOne(s, obj, names[j]).Ok? ==> j in at
  }

  /** Where a fetch fails, every read fails with the same error. */
  lemma FailsForAll(s: Server, obj: ObjectName, names: set<string>)
    requires Fetch(s, obj, names).Err?
    ensures forall n :: ReadOne(s, obj, n) == Err(Fetch(s, obj, names).error)
  {
  }

  // ----- how long a cached value lasts -----

  /** A lookup of an object that misses. */
  predicate Misses(s: System, e: Event, obj: ObjectName)
  {
    e.Begin? && e.obj == obj && !Hits(s.cache, obj, NameSet(e.names))
  }

  predicate Cached(s: System, obj: ObjectName, a: string, v: Value)
  {
    obj in s.cache.values && a in s.cache.values[obj] && s.cache.values[obj][a] == v
  }

  /** An event after which a lookup of the object has not brought another value of the attribute. */
  predicate Keeps(s: System, e: Event, obj: ObjectName, a: string, v: Value)
    requires s.history != []
  {
    !e.Flush? && (Misses(s, e, obj) ==> Fetch(Now(s), obj, {}).Err? || ReadOne(Now(s), obj, a) == Ok(v))
  }

  /**
   A cached value survives an event exactly if that is no flush and no miss on the same object that
   reaches the server and reads something else.
   */
  lemma CachedValueSurvives(s: System, e: Event, obj: ObjectName, a: string, v: Value)
    requires Invariant(s) && Cached(s, obj, a, v)
    ensures Cached(Step(s, e), obj, a, v) <==> Keeps(s, e, obj, a, v)
  {
    CachedIsLearned(s, obj, a, v);
    hide Invariant, Fetch, ReadOne, Hits;
    if e.Begin? {
      if e.obj == obj {
        LookupKeepsValue(s.cache, Now(s), obj, NameSet(e.names), a);
        hide Lookup;
      } else {
        OtherLookup(s.cache, Now(s), e.obj, NameSet(e.names), obj);
        hide Lookup;
      }
    }
  }

  /** What a lookup makes of a cached value. */
  lemma LookupKeepsValue(c: Cache, s: Server, obj: ObjectName, names: set<string>, a: string)
    requires obj in c.values && obj in c.names && a in c.values[obj] && a in c.names[obj]
    ensures var c' := Lookup(c, s, obj, names).0; var v := c.values[obj][a];
      && obj in c'.values
      && (a in c'.values[obj] && c'.values[obj][a] == v <==>
          (Hits(c, obj, names) || Fetch(s, obj, {}).Err? || ReadOne(s, obj, a) == Ok(v)))
  {
  }

  lemma OtherLookup(c: Cache, s: Server, other: ObjectName, names: set<string>, obj: ObjectName)
    requires other != obj && obj in c.values
    ensures var c' := Lookup(c, s, other, names).0; obj in c'.values && c'.values[obj] == c.values[obj]
  {
  }

  lemma CachedIsLearned(s: System, obj: ObjectName, a: string, v: Value)
    requires Invariant(s) && Cached(s, obj, a, v)
    ensures obj in s.cache.names && a in s.cache.names[obj]
  {
    hide CallIsConsistent;
  }

  /** Any other event leaves the whole map of the object alone. */
  lemma CachedValuesLast(s: System, e: Event, obj: ObjectName)
    requires s.history != [] && obj in s.cache.values && !e.Flush? && !Misses(s, e, obj)
    ensures obj in Step(s, e).cache.values && Step(s, e).cache.values[obj] == s.cache.values[obj]
  {
  }

  /** What getAttribute answers if it is called now and not overtaken by anything. */
  function AnswerNow(s: System, obj: ObjectName, a: string): Result<Value>
    requires s.history != []
  {
    AnswerOne(Lookup(s.cache, Now(s), obj, {a}).1, Now(s), obj, a)
  }

  /** It is the cached value where there is one, and otherwise a direct read. */
  lemma AnswerNowIs(s: System, obj: ObjectName, a: string)
    requires Invariant(s)
    ensures AnswerNow(s, obj, a) ==
      if obj in s.cache.values && a in s.cache.values[obj] then Ok(s.cache.values[obj][a])
      else ReadOne(Now(s), obj, a)
  {
  }

  function RunOn(s: System, events: seq<Event>): (r: System)
    requires s.history != []
    ensures r.history != []
  {
    if events == [] then s else Step(RunOn(s, events[..|events| - 1]), events[|events| - 1])
  }

  lemma {:induction false} RunOnKeeps(s: System, events: seq<Event>)
    requires Invariant(s)
    ensures Invariant(RunOn(s, events))
  {
    hide Invariant, Step;
    InvariantHasHistory(s);
    if events != [] {
      var n := |events| - 1;
      RunOnKeeps(s, events[..n]);
      StepKeeps(RunOn(s, events[..n]), events[n]);
    }
  }

  lemma InvariantHasHistory(s: System)
    requires Invariant(s)
    ensures s.history != []
  {
  }

  /** The state after the first k events. */
  function At(s: System, events: seq<Event>, k: nat): (r: System)
    requires s.history != [] && k <= |events|
    ensures r.history != []
  {
    RunOn(s, events[..k])
  }

  lemma AtNext(s: System, events: seq<Event>, k: nat)
    requires s.history != [] && k < |events|
    ensures At(s, events, k + 1) == Step(At(s, events, k), events[k])
    ensures At(s, events, 0) == s
  {
    assert events[..k + 1][..k] == events[..k];
  }

  /** Along a run, the value stays cached up to some point exactly if every event before it keeps it. */
  lemma {:induction false} ValueLasts(s: System, events: seq<Event>, obj: ObjectName, a: string, v: Value, n: nat)
    requires Invariant(s) && Cached(s, obj, a, v) && n <= |events|
    ensures (forall k :: 0 <= k <= n ==> Cached(At(s, events, k), obj, a, v)) <==>
      (forall k :: 0 <= k < n ==> Keeps(At(s, events, k), events[k], obj, a, v))
  {
    hide Invariant, Step, Keeps, Cached, RunOn, At;
    InvariantHasHistory(s);
    if n == 0 {
      assert At(s, events, 0) == s by { StartsAt(s, events); }
    } else {
      ValueLasts(s, events, obj, a, v, n - 1);
      AtKeeps(s, events, n - 1);
      AtNext(s, events, n - 1);
      if Cached(At(s, events, n - 1), obj, a, v) {
        CachedValueSurvives(At(s, events, n - 1), events[n - 1], obj, a, v);
      }
    }
  }

  lemma StartsAt(s: System, events: seq<Event>)
    requires s.history != []
    ensures At(s, events, 0) == s
  {
  }

  lemma AtKeeps(s: System, events: seq<Event>, k: nat)
    requires Invariant(s) && k <= |events|
    ensures Invariant(At(s, events, k))
  {
    hide Invariant, Step;
    InvariantHasHistory(s);
    RunOnKeeps(s, events[..k]);
  }

  /** If a lookup replaces the value, the very next answer differs. */
  lemma AnswerChanges(s: System, e: Event, obj: ObjectName, a: string, v: Value)
    requires Invariant(s) && Cached(s, obj, a, v) && !e.Flush? && !Keeps(s, e, obj, a, v)
    ensures AnswerNow(Step(s, e), obj, a) != Ok(v)
  {
    hide Invariant, AnswerNow, Lookup, Fetch, ReadOne, Hits;
    InvariantHasHistory(s);
    var s' := Step(s, e);
    CachedValueSurvives(s, e, obj, a, v);
    StepKeeps(s, e);
    AnswerNowIs(s', obj, a);
  }

  /**
   The class comment says that until the next flush the cached result is returned. In a run without a
   flush, getAttribute answers the cached value at every point exactly if every lookup of the same
   object that misses either fails or reads that value again.
   */
  lemma {:induction false} CachedUntilFlush(s: System, events: seq<Event>, obj: ObjectName, a: string, v: Value)
    requires Invariant(s) && Cached(s, obj, a, v) && forall k :: 0 <= k < |events| ==> !events[k].Flush?
    ensures (forall k :: 0 <= k <= |events| ==> AnswerNow(At(s, events, k), obj, a) == Ok(v)) <==>
      (forall k :: 0 <= k < |events| && Misses(At(s, events, k), events[k], obj) ==>
        Fetch(Now(At(s, events, k)), obj, {}).Err? || ReadOne(Now(At(s, events, k)), obj, a) == Ok(v))
  {
    hide Invariant, Step, Cached, RunOn, At, AnswerNow, Misses, Fetch, ReadOne;
    InvariantHasHistory(s);
    ValueLasts(s, events, obj, a, v, |events|);
    if forall k :: 0 <= k < |events| ==> Keeps(At(s, events, k), events[k], obj, a, v) {
      forall k | 0 <= k <= |events|
        ensures AnswerNow(At(s, events, k), obj, a) == Ok(v)
      {
        AtKeeps(s, events, k);
        CachedIsAnswered(At(s, events, k), obj, a, v);
      }
    } else {
      var k := FirstLoss(s, events, obj, a, v, |events|);
      AtKeeps(s, events, k);
      AtNext(s, events, k);
      AnswerChanges(At(s, events, k), events[k], obj, a, v);
      assert AnswerNow(At(s, events, k + 1), obj, a) != Ok(v);
    }
  }

  lemma CachedIsAnswered(s: System, obj: ObjectName, a: string, v: Value)
    requires Invariant(s) && Cached(s, obj, a, v)
    ensures AnswerNow(s, obj, a) == Ok(v)
  {
    hide AnswerNow;
    AnswerNowIs(s, obj, a);
  }

  /** The first event that does not keep the value; up to it the value is cached. */
  lemma {:induction false} FirstLoss(s: System, events: seq<Event>, obj: ObjectName, a: string, v: Value, n: nat)
    returns (k: nat)
    requires Invariant(s) && Cached(s, obj, a, v) && n <= |events|
    requires exists j :: 0 <= j < n && !Keeps(At(s, events, j), events[j], obj, a, v)
    ensures k < n && !Keeps(At(s, events, k), events[k], obj, a, v) && Cached(At(s, events, k), obj, a, v)
  {
    hide Invariant, Step, Keeps, Cached, RunOn, At;
    InvariantHasHistory(s);
    if j :| 0 <= j < n - 1 && !Keeps(At(s, events, j), events[j], obj, a, v) {
      k := FirstLoss(s, events, obj, a, v, n - 1);
    } else {
      k := n - 1;
      ValueLasts(s, events, obj, a, v, n - 1);
    }
  }

  function TwoAttributes(obj: ObjectName, a: string, x: Value, b: string, y: Value): Server
  {
    Server(true, map[obj := map[a := Readable(x), b := Readable(y)]])
  }

  /**
   For instance, a miss on another name fetches all names again: reading a, then b after a has changed
   on the server, then a again gives the new value although nothing was flushed.
   */
  lemma MissReplacesCachedValues(obj: ObjectName, a: string, x: Value, x': Value, b: string, y: Value)
    requires a != b
    ensures var s := Step(Initial(TwoAttributes(obj, a, x, b, y)), Begin(0, obj, [a]));
      var s' := Step(Step(s, ServerChange(TwoAttributes(obj, a, x', b, y))), Begin(0, obj, [b]));
      s.cache.values == map[obj := map[a := x]]
      && s'.cache.values == map[obj := map[a := x', b := y]]
      && s'.flushedAt == s.flushedAt
  {
    assert NameSet([a]) == {a} && NameSet([b]) == {b};
    var s0 := Initial(TwoAttributes(obj, a, x, b, y));
    assert Wanted(s0.cache, obj, {a}) == {a};
    FetchIs(Now(s0), obj, {a}, map[a := x]);
    var s1 := Step(Step(s0, Begin(0, obj, [a])), ServerChange(TwoAttributes(obj, a, x', b, y)));
    assert Wanted(s1.cache, obj, {b}) == {a, b};
    FetchIs(Now(s1), obj, {a, b}, map[a := x', b := y]);
  }

  lemma FetchIs(s: Server, obj: ObjectName, names: set<string>, expected: NameValueMap)
    requires s.up && obj in s.beans && expected.Keys == names
    requires forall n :: n in names ==> n in s.beans[obj] && s.beans[obj][n] == Readable(expected[n])
    ensures Fetch(s, obj, names) == Ok(expected)
  {
    var values := Fetch(s, obj, names).value;
    assert values.Keys == expected.Keys;
    assert forall n :: n in values ==> values[n] == expected[n];
    assert values == expected;
  }
}
