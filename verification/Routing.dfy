/** OPTIONS routes for every path that has none. */
module Routing {
  const OPTIONS := "OPTIONS"

  /** A handler of the service's own, or one made for a list of methods. */
  datatype Handler = Given(index: nat) | Generated(methods: seq<string>)

  datatype Route = Route(httpMethod: string, pathExp: string, handler: Handler)

  /** The methods of a path, in route order. */
  function MethodsOf(routes: seq<Route>, path: string): seq<string> {
    if routes == [] then []
    else (if routes[0].pathExp == path then [routes[0].httpMethod] else []) + MethodsOf(routes[1..], path)
  }

  function OptionsRoute(routes: seq<Route>, path: string): Route {
    Route(OPTIONS, path, Generated(MethodsOf(routes, path)))
  }

  /** Some route has this path and none of that path answers OPTIONS. */
  predicate LacksOptions(routes: seq<Route>, path: string) {
    MethodsOf(routes, path) != [] && OPTIONS !in MethodsOf(routes, path)
  }

  /** The input kept as a prefix, then exactly one OPTIONS route for each path that lacks one. */
  ghost predicate Augmented(routes: seq<Route>, out: seq<Route>) {
    && |routes| <= |out| && out[..|routes|] == routes
    && (forall i :: |routes| <= i < |out| ==> LacksOptions(routes, out[i].pathExp) && out[i] == OptionsRoute(routes, out[i].pathExp))
    && (forall i, j :: |routes| <= i < j < |out| ==> out[i].pathExp != out[j].pathExp)
    && (forall path :: LacksOptions(routes, path) ==> OptionsRoute(routes, path) in out[|routes|..])
  }

  lemma {:induction false} MethodsConcat(a: seq<Route>, b: seq<Route>, path: string)
    ensures MethodsOf(a + b, path) == MethodsOf(a, path) + MethodsOf(b, path)
  {
    if a == [] {
      assert a + b == b;
    } else {
      assert (a + b)[1..] == a[1..] + b;
      MethodsConcat(a[1..], b, path);
    }
  }

  lemma {:induction false} MethodsMember(routes: seq<Route>, path: string, httpMethod: string)
    ensures httpMethod in MethodsOf(routes, path) <==>
            exists i :: 0 <= i < |routes| && routes[i].pathExp == path && routes[i].httpMethod == httpMethod
  {
    if routes != [] {
      MethodsMember(routes[1..], path, httpMethod);
      if i :| 0 <= i < |routes| && routes[i].pathExp == path && routes[i].httpMethod == httpMethod {
        assert i > 0 ==> routes[1..][i - 1].pathExp == path && routes[1..][i - 1].httpMethod == httpMethod;
      }
      if i :| 0 <= i < |routes| - 1 && routes[1..][i].pathExp == path && routes[1..][i].httpMethod == httpMethod {
        assert routes[i + 1].pathExp == path && routes[i + 1].httpMethod == httpMethod;
      }
    }
  }

  /** The groups hold each path's methods, and no path that has none. */
  ghost predicate Groups(routes: seq<Route>, m: map<string, seq<string>>) {
    && (forall p :: p in m <==> MethodsOf(routes, p) != [])
    && (forall p :: p in m ==> m[p] == MethodsOf(routes, p))
  }

  lemma MethodsAppend(routes: seq<Route>, route: Route, path: string)
    ensures MethodsOf(routes + [route], path) == if route.pathExp == path then MethodsOf(routes, path) + [route.httpMethod]
                                                 else MethodsOf(routes, path)
  {
    MethodsConcat(routes, [route], path);
    assert [route][1..] == [];
  }

  lemma GroupStep(routes: seq<Route>, route: Route, m: map<string, seq<string>>)
    requires Groups(routes, m)
    ensures var methods := if route.pathExp in m then m[route.pathExp] else [];
            Groups(routes + [route], m[route.pathExp := methods + [route.httpMethod]])
  {
    var methods := if route.pathExp in m then m[route.pathExp] else [];
    var grown := m[route.pathExp := methods + [route.httpMethod]];
    forall p ensures (p in grown <==> MethodsOf(routes + [route], p) != []) && (p in grown ==> grown[p] == MethodsOf(routes + [route], p)) {
      MethodsAppend(routes, route, p);
    }
  }

  /** The options made from the paths walked so far. */
  ghost predicate Collected(routes: seq<Route>, walked: set<string>, options: seq<Route>) {
    && (forall k :: 0 <= k < |options| ==>
          && options[k].pathExp in walked && LacksOptions(routes, options[k].pathExp)
          && options[k] == OptionsRoute(routes, options[k].pathExp))
    && (forall j, k :: 0 <= j < k < |options| ==> options[j].pathExp != options[k].pathExp)
    && (forall p :: p in walked && LacksOptions(routes, p) ==> OptionsRoute(routes, p) in options)
  }

  lemma CollectStep(routes: seq<Route>, walked: set<string>, options: seq<Route>, path: string)
    requires Collected(routes, walked, options) && path !in walked && MethodsOf(routes, path) != []
    ensures Collected(routes, walked + {path},
                      if LacksOptions(routes, path) then options + [OptionsRoute(routes, path)] else options)
  {
    if LacksOptions(routes, path) {
      var more := options + [OptionsRoute(routes, path)];
      assert more[|options|] == OptionsRoute(routes, path);
    }
  }

  /** The map of groups is walked in no particular order. */
  method AutogenOptionsRoutes(routes: seq<Route>) returns (out: seq<Route>)
    ensures |routes| <= |out| && out[..|routes|] == routes
    ensures forall i :: |routes| <= i < |out| ==> out[i] == Route("OPTIONS", out[i].pathExp, Generated(MethodsOf(routes, out[i].pathExp)))
    ensures forall i, r :: |routes| <= i < |out| && r in routes && r.pathExp == out[i].pathExp ==> r.httpMethod != "OPTIONS"
    ensures forall r :: r in routes ==> exists o :: o in out && o.pathExp == r.pathExp && o.httpMethod == "OPTIONS"
    ensures Augmented(routes, out)
  {
    var methodGroups: map<string, seq<string>> := map[];
    var i := 0;
    while i < |routes|
      invariant 0 <= i <= |routes|
      invariant Groups(routes[..i], methodGroups)
    {
      var route := routes[i];
      var methods := if route.pathExp in methodGroups then methodGroups[route.pathExp] else [];
      GroupStep(routes[..i], route, methodGroups);
      assert routes[..i + 1] == routes[..i] + [route];
      methodGroups := methodGroups[route.pathExp := methods + [route.httpMethod]];
      i := i + 1;
    }
    assert routes[..i] == routes;

    var options: seq<Route> := [];
    var left := methodGroups.Keys;
    assert methodGroups.Keys - left == {};
    while left != {}
      invariant left <= methodGroups.Keys
      invariant Collected(routes, methodGroups.Keys - left, options)
      decreases left
    {
      var path :| path in left;
      var methods := methodGroups[path];
      CollectStep(routes, methodGroups.Keys - left, options, path);
      assert OPTIONS !in methods <==> LacksOptions(routes, path);
      assert methodGroups.Keys - left + {path} == methodGroups.Keys - (left - {path});
      if OPTIONS !in methods {
        options := options + [Route(OPTIONS, path, Generated(methods))];
      }
      left := left - {path};
    }
    assert methodGroups.Keys - left == methodGroups.Keys;
    CollectedIsAugmented(routes, methodGroups, options);
    out := routes + options;
    EveryPathAnswersOptions(routes, out);
  }

  lemma CollectedIsAugmented(routes: seq<Route>, m: map<string, seq<string>>, options: seq<Route>)
    requires Groups(routes, m) && Collected(routes, m.Keys, options)
    ensures Augmented(routes, routes + options)
  {
    assert (routes + options)[|routes|..] == options;
  }

  /** No path gets a second OPTIONS route, and every path has one. */
  lemma EveryPathAnswersOptions(routes: seq<Route>, out: seq<Route>)
    requires Augmented(routes, out)
    ensures forall i, r :: |routes| <= i < |out| && r in routes && r.pathExp == out[i].pathExp ==> r.httpMethod != "OPTIONS"
    ensures forall r :: r in routes ==> exists o :: o in out && o.pathExp == r.pathExp && o.httpMethod == "OPTIONS"
  {
    forall i, r | |routes| <= i < |out| && r in routes && r.pathExp == out[i].pathExp ensures r.httpMethod != "OPTIONS" {
      MethodsMember(routes, r.pathExp, r.httpMethod);
    }
    forall r | r in routes ensures exists o :: o in out && o.pathExp == r.pathExp && o.httpMethod == "OPTIONS" {
      MethodsMember(routes, r.pathExp, r.httpMethod);
      MethodsMember(routes, r.pathExp, OPTIONS);
      if LacksOptions(routes, r.pathExp) {
        assert OptionsRoute(routes, r.pathExp) in out[|routes|..];
      } else {
        var i :| 0 <= i < |routes| && routes[i].pathExp == r.pathExp && routes[i].httpMethod == OPTIONS;
        assert out[i] == routes[i];
      }
    }
  }

  /** The methods of a path are those of its routes, in their order. */
  lemma MethodsAreInOrder(before: seq<Route>, route: Route, after: seq<Route>, path: string)
    ensures MethodsOf(before + [route] + after, path) ==
            MethodsOf(before, path) + (if route.pathExp == path then [route.httpMethod] else []) + MethodsOf(after, path)
  {
    MethodsConcat(before + [route], after, path);
    MethodsAppend(before, route, path);
  }

  /** After one round every path answers OPTIONS. */
  lemma NothingLacksOptions(routes: seq<Route>, out: seq<Route>, path: string)
    requires Augmented(routes, out)
    ensures !LacksOptions(out, path)
  {
    assert out == routes + out[|routes|..];
    MethodsConcat(routes, out[|routes|..], path);
    if LacksOptions(routes, path) {
      var i :| 0 <= i < |out| - |routes| && out[|routes|..][i] == OptionsRoute(routes, path);
      assert out[|routes| + i].httpMethod == OPTIONS && out[|routes| + i].pathExp == path;
      MethodsMember(out, path, OPTIONS);
    } else if MethodsOf(routes, path) == [] {
      var appended := out[|routes|..];
      if MethodsOf(appended, path) != [] {
        MethodsMember(appended, path, MethodsOf(appended, path)[0]);
        assert false;
      }
    }
  }

  /** A second round adds nothing, in whatever order either round walked its groups. */
  lemma Idempotent(routes: seq<Route>, once: seq<Route>, twice: seq<Route>)
    requires Augmented(routes, once) && Augmented(once, twice)
    ensures twice == once
  {
    if |twice| > |once| {
      NothingLacksOptions(routes, once, twice[|once|].pathExp);
    }
  }

  /** Two rounds over the same routes differ at most in the order of what they append. */
  lemma SameUpToOrder(routes: seq<Route>, a: seq<Route>, b: seq<Route>)
    requires Augmented(routes, a) && Augmented(routes, b)
    ensures multiset(a) == multiset(b)
  {
    forall r ensures r in a[|routes|..] <==> r in b[|routes|..] {
      if r in a[|routes|..] {
        AlsoAppended(routes, a, b, r);
      }
      if r in b[|routes|..] {
        AlsoAppended(routes, b, a, r);
      }
    }
    SameMultiset(a[|routes|..], b[|routes|..]);
    assert a == routes + a[|routes|..] && b == routes + b[|routes|..];
  }

  lemma SameMultiset(x: seq<Route>, y: seq<Route>)
    requires forall i, j :: 0 <= i < j < |x| ==> x[i] != x[j]
    requires forall i, j :: 0 <= i < j < |y| ==> y[i] != y[j]
    requires forall r :: r in x <==> r in y
    ensures multiset(x) == multiset(y)
  {
    DistinctIsSet(x);
    DistinctIsSet(y);
    assert (set r | r in x) == (set r | r in y);
  }

  lemma AlsoAppended(routes: seq<Route>, a: seq<Route>, b: seq<Route>, r: Route)
    requires Augmented(routes, a) && Augmented(routes, b) && r in a[|routes|..]
    ensures r in b[|routes|..]
  {
    var i :| 0 <= i < |a| - |routes| && a[|routes|..][i] == r;
    assert a[|routes| + i] == r;
  }

  lemma {:induction false} DistinctIsSet(x: seq<Route>)
    requires forall i, j :: 0 <= i < j < |x| ==> x[i] != x[j]
    ensures multiset(x) == multiset(set r | r in x)
  {
    if x != [] {
      DistinctIsSet(x[1..]);
      assert x == [x[0]] + x[1..];
      assert (set r | r in x) == (set r | r in x[1..]) + {x[0]};
      assert x[0] !in x[1..];
    }
  }
}
