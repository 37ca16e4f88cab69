/**
 * Building the route table: the walk's callback runs once per entry, in
 * the walk's order, and registers each file that is neither a directory nor
 * excluded with the default `ServeMux`. Registering a pattern twice is a
 * fatal error (the mux panics), which stops the walk at that entry with the
 * table as it was.
 */
module Registry {
  import opened Options
  import opened Strings
  import opened ContentTypes
  import opened Routes

  /** The table of registered patterns, as `http.Handle` fills it. */
  class ServeMux {
    var routes: map<string, Endpoint>

    constructor()
      ensures routes == map[]
    {
      routes := map[];
    }

    /**
     * `http.Handle`: adds `pattern` when it is new; a pattern already present
     * is refused (`ok` is false) and the table is left as it was.
     */
    method Handle(pattern: string, endpoint: Endpoint) returns (ok: bool)
      modifies this
      ensures ok <==> pattern !in old(routes)
      ensures routes == if ok then old(routes)[pattern := endpoint] else old(routes)
    {
      if pattern in routes {
        return false;
      }
      routes := routes[pattern := endpoint];
      return true;
    }
  }

  /** The state of the table after some entries: its routes, and the route that clashed, if any. */
  datatype Outcome = Outcome(routes: map<string, Endpoint>, conflict: Option<string>)

  /** `http.Handle` applied to what the callback computed for one entry: nothing, or a binding whose route must be new. */
  function Step(routes: map<string, Endpoint>, binding: Option<Binding>): (out: Outcome)
    ensures out.conflict.None? ==> forall r :: r in routes ==> r in out.routes && out.routes[r] == routes[r]
    ensures out.conflict.Some? ==> out.routes == routes && out.conflict.value in routes
    ensures binding.None? ==> out == Outcome(routes, None)
    ensures binding.Some? ==> (out.conflict.Some? <==> binding.value.route in routes)
    ensures binding.Some? && binding.value.route in routes ==> out.conflict == Some(binding.value.route)
    ensures binding.Some? && binding.value.route !in routes ==>
              out.routes == routes[binding.value.route := binding.value.endpoint]
  {
    match binding
    case None => Outcome(routes, None)
    case Some(b) =>
      if b.route in routes then Outcome(routes, Some(b.route))
      else Outcome(routes[b.route := b.endpoint], None)
  }

  /** The bindings the callback computes for the walk's entries, in order. */
  function Bindings(entries: seq<WalkEntry>, excluded: string -> bool): (bindings: seq<Option<Binding>>)
    ensures |bindings| == |entries|
  {
    seq(|entries|, i requires 0 <= i < |entries| => Registration(entries[i], excluded))
  }

  /** The whole walk: each binding handed to the mux in turn, stopping at the first clash. */
  function Walked(routes: map<string, Endpoint>, bindings: seq<Option<Binding>>): (out: Outcome)
    ensures routes.Keys <= out.routes.Keys
    ensures out.conflict.Some? ==> out.conflict.value in out.routes
    decreases |bindings|
  {
    if bindings == [] then Outcome(routes, None)
    else
      var out := Step(routes, bindings[0]);
      if out.conflict.Some? then out else Walked(out.routes, bindings[1..])
  }

  /**
   * The walk callback for one entry: directories are passed over, the
   * directory part's segments are tested in order, and the file is registered
   * at its route.
   */
  method Visit(mux: ServeMux, entry: WalkEntry, excluded: string -> bool) returns (conflict: Option<string>)
    modifies mux
    ensures Outcome(mux.routes, conflict) == Step(old(mux.routes), Registration(entry, excluded))
  {
    if entry.isDir {
      return None;
    }
    var (dir, file) := SplitPath(entry.path);
    var skip := SkipFolder(dir, excluded);
    if skip {
      return None;
    }
    var route := if file == IndexFile then "/" + dir else "/" + entry.path;
    var ok := mux.Handle(route, Endpoint(entry.path, ContentType(file)));
    if !ok {
      return Some(route);
    }
    return None;
  }

  /** The walk: the callback on every entry in order, stopping at a clash. */
  method RegisterAll(mux: ServeMux, entries: seq<WalkEntry>, excluded: string -> bool) returns (conflict: Option<string>)
    modifies mux
    ensures Outcome(mux.routes, conflict) == Walked(old(mux.routes), Bindings(entries, excluded))
  {
    var i := 0;
    while i < |entries|
      invariant 0 <= i <= |entries|
      invariant Walked(old(mux.routes), Bindings(entries, excluded)) == Walked(mux.routes, Bindings(entries, excluded)[i..])
    {
      var rest := Bindings(entries, excluded)[i..];
      assert rest[0] == Registration(entries[i], excluded);
      assert rest[1..] == Bindings(entries, excluded)[i + 1..];
      conflict := Visit(mux, entries[i], excluded);
      if conflict.Some? {
        return;
      }
      i := i + 1;
    }
    return None;
  }

  /** Routes already in the table are never replaced or removed. */
  lemma {:induction false} WalkedKeepsRoutes(routes: map<string, Endpoint>, bindings: seq<Option<Binding>>)
    ensures forall r :: r in routes ==>
              (r in Walked(routes, bindings).routes && Walked(routes, bindings).routes[r] == routes[r])
    decreases |bindings|
  {
    if bindings != [] {
      var out := Step(routes, bindings[0]);
      if out.conflict.None? {
        WalkedKeepsRoutes(out.routes, bindings[1..]);
      }
    }
  }

  /** Every route the walk adds comes from one of the bindings, with that binding's endpoint. */
  lemma {:induction false} WalkedSound(routes: map<string, Endpoint>, bindings: seq<Option<Binding>>)
    ensures forall r :: r in Walked(routes, bindings).routes && r !in routes ==>
              exists i :: 0 <= i < |bindings| && bindings[i] == Some(Binding(r, Walked(routes, bindings).routes[r]))
    decreases |bindings|
  {
    if bindings != [] {
      var out := Step(routes, bindings[0]);
      if out.conflict.None? {
        var final := Walked(out.routes, bindings[1..]).routes;
        WalkedSound(out.routes, bindings[1..]);
        WalkedKeepsRoutes(out.routes, bindings[1..]);
        forall r | r in final && r !in routes
          ensures exists i :: 0 <= i < |bindings| && bindings[i] == Some(Binding(r, final[r]))
        {
          if r in out.routes {
            assert bindings[0] == Some(Binding(r, final[r]));
          } else {
            var i :| 0 <= i < |bindings[1..]| && bindings[1..][i] == Some(Binding(r, final[r]));
            assert bindings[i + 1] == bindings[1..][i];
          }
        }
      }
    }
  }

  /** A walk that ends without a clash has registered every binding. */
  lemma {:induction false} WalkedComplete(routes: map<string, Endpoint>, bindings: seq<Option<Binding>>)
    requires Walked(routes, bindings).conflict.None?
    ensures forall i :: 0 <= i < |bindings| && bindings[i].Some? ==>
              (bindings[i].value.route in Walked(routes, bindings).routes
               && Walked(routes, bindings).routes[bindings[i].value.route] == bindings[i].value.endpoint)
    decreases |bindings|
  {
    if bindings != [] {
      var out := Step(routes, bindings[0]);
      WalkedComplete(out.routes, bindings[1..]);
      WalkedKeepsRoutes(out.routes, bindings[1..]);
      forall i | 1 <= i < |bindings|
        ensures bindings[i] == bindings[1..][i - 1]
      {
      }
    }
  }

  /**
   * A clash is a real duplicate: the clashing route is the route of some
   * binding, and was already in the table or is also the route of an
   * earlier binding.
   */
  lemma {:induction false} ConflictIsDuplicate(routes: map<string, Endpoint>, bindings: seq<Option<Binding>>)
    requires Walked(routes, bindings).conflict.Some?
    ensures exists j :: 0 <= j < |bindings| && bindings[j].Some?
              && bindings[j].value.route == Walked(routes, bindings).conflict.value
              && (bindings[j].value.route in routes
                  || exists i :: 0 <= i < j && bindings[i].Some? && bindings[i].value.route == bindings[j].value.route)
    decreases |bindings|
  {
    var out := Step(routes, bindings[0]);
    if out.conflict.Some? {
      assert bindings[0].Some? && bindings[0].value.route in routes;
    } else {
      var tail := bindings[1..];
      ConflictIsDuplicate(out.routes, tail);
      var j :| 0 <= j < |tail| && tail[j].Some?
               && tail[j].value.route == Walked(routes, bindings).conflict.value
               && (tail[j].value.route in out.routes
                   || exists i :: 0 <= i < j && tail[i].Some? && tail[i].value.route == tail[j].value.route);
      assert tail[j] == bindings[j + 1];
      if tail[j].value.route in out.routes && tail[j].value.route !in routes {
        assert bindings[0].Some? && bindings[0].value.route == bindings[j + 1].value.route;
      } else if tail[j].value.route !in out.routes {
        var i :| 0 <= i < j && tail[i].Some? && tail[i].value.route == tail[j].value.route;
        assert tail[i] == bindings[i + 1];
      }
    }
  }

  /** Distinct files have distinct routes, so their bindings never share a route. */
  lemma DistinctFilesDistinctRoutes(entries: seq<WalkEntry>, excluded: string -> bool)
    requires forall i, j :: 0 <= i < j < |entries| ==> entries[i].path != entries[j].path
    requires forall i :: 0 <= i < |entries| && !entries[i].isDir ==> !IsDirPart(entries[i].path)
    ensures forall i, j :: 0 <= i < j < |entries| && Bindings(entries, excluded)[i].Some? && Bindings(entries, excluded)[j].Some? ==>
              Bindings(entries, excluded)[i].value.route != Bindings(entries, excluded)[j].value.route
  {
    var bindings := Bindings(entries, excluded);
    forall i, j | 0 <= i < j < |entries| && bindings[i].Some? && bindings[j].Some?
      ensures bindings[i].value.route != bindings[j].value.route
    {
      assert bindings[i] == Registration(entries[i], excluded);
      assert bindings[j] == Registration(entries[j], excluded);
      if bindings[i].value.route == bindings[j].value.route {
        RouteInjective(entries[i].path, entries[j].path);
      }
    }
  }

  /**
   * The walk reports each file once, under its own path, and a file's path
   * never ends with the separator. Under those conditions, starting from an
   * empty table, no two entries clash, so every file that is not excluded
   * is registered.
   */
  lemma DistinctFilesNeverClash(entries: seq<WalkEntry>, excluded: string -> bool)
    requires forall i, j :: 0 <= i < j < |entries| ==> entries[i].path != entries[j].path
    requires forall i :: 0 <= i < |entries| && !entries[i].isDir ==> !IsDirPart(entries[i].path)
    ensures Walked(map[], Bindings(entries, excluded)).conflict.None?
    ensures forall i :: 0 <= i < |entries| && Bindings(entries, excluded)[i].Some? ==>
              Bindings(entries, excluded)[i].value.route in Walked(map[], Bindings(entries, excluded)).routes
  {
    var bindings := Bindings(entries, excluded);
    DistinctFilesDistinctRoutes(entries, excluded);
    if Walked(map[], bindings).conflict.Some? {
      ConflictIsDuplicate(map[], bindings);
    }
    WalkedComplete(map[], bindings);
  }

  /**
   * Every route of the finished table serves a file of the walk that is not
   * a directory and not excluded, at that file's route, with the content type
   * of its name.
   */
  lemma TableServesWalkedFiles(entries: seq<WalkEntry>, excluded: string -> bool)
    ensures forall r :: r in Walked(map[], Bindings(entries, excluded)).routes ==>
              var endpoint := Walked(map[], Bindings(entries, excluded)).routes[r];
              && r == Route(endpoint.path)
              && endpoint.contentType == ContentType(SplitPath(endpoint.path).1)
              && !Excluded(SplitPath(endpoint.path).0, excluded)
              && WalkEntry(endpoint.path, false) in entries
  {
    var bindings := Bindings(entries, excluded);
    var table := Walked(map[], bindings).routes;
    WalkedSound(map[], bindings);
    forall r | r in table
      ensures r == Route(table[r].path)
      ensures table[r].contentType == ContentType(SplitPath(table[r].path).1)
      ensures !Excluded(SplitPath(table[r].path).0, excluded)
      ensures WalkEntry(table[r].path, false) in entries
    {
      var i :| 0 <= i < |bindings| && bindings[i] == Some(Binding(r, table[r]));
      assert Registration(entries[i], excluded) == Some(Binding(r, table[r]));
      assert entries[i] == WalkEntry(table[r].path, false);
    }
  }
}
