/**
 * Routes as lists of segments and as strings, and the functions registered under them
 * (src/tools/route.cpp, src/functions/functions_manager.cpp, src/handlers/root_handler.cpp IdentifyRoute_).
 */
module Routes {
  import opened Http
  import opened Wrappers

  /** The string of a route: a slash before every segment. */
  function Join(segments: seq<string>): string {
    if segments == [] then ""
    else Join(segments[..|segments| - 1]) + "/" + segments[|segments| - 1]
  }

  /** The segments of a string, cut at its slashes. */
  function Split(route: string): seq<string>
    decreases |route|
  {
    if '/' !in route then []
    else
      var k := LastSlash(route);
      Split(route[..k]) + [route[k + 1..]]
  }

  function LastSlash(route: string): (k: nat)
    requires '/' in route
    ensures k < |route| && route[k] == '/' && '/' !in route[k + 1..]
  {
    var last := |route| - 1;
    if route[last] == '/' then last
    else
      var k := LastSlash(route[..last]);
      assert route[k + 1..] == route[..last][k + 1..] + [route[last]];
      k
  }

  predicate SlashFree(segments: seq<string>) {
    forall i :: 0 <= i < |segments| ==> '/' !in segments[i]
  }

  lemma LastSlashIs(route: string, k: nat)
    requires k < |route| && route[k] == '/' && '/' !in route[k + 1..]
    ensures LastSlash(route) == k
  {
    var m := LastSlash(route);
    assert forall i :: k < i < |route| ==> route[i] == route[k + 1..][i - k - 1];
    assert forall i :: m < i < |route| ==> route[i] == route[m + 1..][i - m - 1];
  }

  lemma SplitStep(front: string, segment: string)
    requires '/' !in segment
    ensures Split(front + "/" + segment) == Split(front) + [segment]
  {
    var route := front + "/" + segment;
    assert route[|front|] == '/' && route[..|front|] == front && route[|front| + 1..] == segment;
    LastSlashIs(route, |front|);
  }

  /** Splitting undoes joining, so different lists of slash-free segments have different strings. */
  lemma {:induction false} SplitJoin(segments: seq<string>)
    requires SlashFree(segments)
    ensures Split(Join(segments)) == segments
  {
    if segments != [] {
      var last := |segments| - 1;
      SplitJoin(segments[..last]);
      SplitStep(Join(segments[..last]), segments[last]);
    }
  }

  /** The string of a route is empty without segments, has a slash before a single one, and puts lists side by side. */
  lemma {:induction false} JoinConcat(a: seq<string>, b: seq<string>)
    ensures Join([]) == "" && forall segment :: Join([segment]) == "/" + segment
    ensures Join(a + b) == Join(a) + Join(b)
  {
    forall segment
      ensures Join([segment]) == "/" + segment
    {
      assert [segment][..0] == [] && Join([]) == "";
    }
    if b == [] {
      assert a + b == a;
    } else {
      var front, last := b[..|b| - 1], b[|b| - 1];
      JoinConcat(a, front);
      assert (a + b)[..|a + b| - 1] == a + front;
      assert Join(a + b) == Join(a + front) + "/" + last;
      assert Join(a) + Join(front) + "/" + last == Join(a) + (Join(front) + "/" + last);
    }
  }

  lemma JoinInjective(a: seq<string>, b: seq<string>)
    requires SlashFree(a) && SlashFree(b)
    ensures Join(a) == Join(b) <==> a == b
  {
    SplitJoin(a);
    SplitJoin(b);
  }

  datatype RouteType = Entrypoint | Endpoint

  class Route {
    const segments: seq<string>
    const route: string
    const routeType: RouteType

    constructor (segments: seq<string>)
      ensures this.segments == segments && route == Join(segments)
      ensures routeType.Endpoint? <==> segments != [] && segments[0] == "api"
    {
      var text := SegmentsToString(segments);
      this.segments := segments;
      this.route := text;
      this.routeType := if |segments| > 0 && segments[0] == "api" then Endpoint else Entrypoint;
    }

    static method SegmentsToString(segments: seq<string>) returns (text: string)
      ensures text == Join(segments)
    {
      text := "";
      for i := 0 to |segments|
        invariant text == Join(segments[..i])
      {
        assert segments[..i + 1][..i] == segments[..i];
        text := text + "/" + segments[i];
      }
      assert segments[..|segments|] == segments;
    }

    /** operator==: the strings are compared. */
    predicate Equals(other: Route) {
      other.route == route
    }

    /** Routes whose segments have no slashes are equal exactly when their segments are. */
    lemma EqualsMeansSegments(other: Route)
      requires route == Join(segments) && other.route == Join(other.segments)
      requires SlashFree(segments) && SlashFree(other.segments)
      ensures Equals(other) <==> segments == other.segments
    {
      JoinInjective(segments, other.segments);
    }
  }

  /** A registered function; `serial` tells the objects apart. */
  datatype Registered = Registered(endpoint: string, verb: Verb, serial: nat)

  class FunctionsManager {
    var functions: map<string, Registered>
    ghost var added: seq<Registered>

    /** Under every endpoint stands the first function that was added for it. */
    ghost predicate Valid()
      reads this
    {
      && (forall i :: 0 <= i < |added| ==> added[i].endpoint in functions && added[i].serial == i)
      && (forall e :: e in functions ==> First(added, e) == Some(functions[e]))
    }

    constructor ()
      ensures Valid() && added == []
    {
      functions, added := map[], [];
    }

    /** Inserts without overwriting; the caller gets its new function in any case. */
    method AddFunction(endpoint: string, verb: Verb, serial: nat) returns (f: Registered)
      requires Valid() && serial == |added|
      modifies this
      ensures Valid()
      ensures f == Registered(endpoint, verb, serial) && added == old(added) + [f]
    {
      f := Registered(endpoint, verb, serial);
      FirstOfMore(added, f);
      if endpoint !in functions {
        functions := functions[endpoint := f];
      }
      added := added + [f];
    }

    /** Looks for the function whose endpoint is the string of the requested route, and checks its method. */
    method IdentifyRoute(requested: Route, verb: Verb) returns (found: Option<Registered>)
      requires Valid() && requested.route == Join(requested.segments)
      ensures found == match First(added, requested.route)
                       case Some(f) => if f.verb == verb then Some(f) else None
                       case None => None
    {
      FirstMissing(added, requested.route);
      var left := functions.Keys;
      while left != {}
        invariant left <= functions.Keys
        invariant requested.route in functions && requested.route !in left ==> functions[requested.route].verb != verb
        decreases left
      {
        var endpoint :| endpoint in left;
        left := left - {endpoint};
        var text := Route.SegmentsToString(requested.segments);
        if text == endpoint {
          if verb == functions[endpoint].verb { return Some(functions[endpoint]); }
        }
      }
      found := None;
    }
  }

  /** The first function that was added under the endpoint. */
  function First(added: seq<Registered>, endpoint: string): (f: Option<Registered>)
    ensures f.Some? ==> f.value in added && f.value.endpoint == endpoint
  {
    if added == [] then None
    else
      var last := |added| - 1;
      var f := First(added[..last], endpoint);
      if f.Some? then f else if added[last].endpoint == endpoint then Some(added[last]) else None
  }

  lemma FirstOfMore(added: seq<Registered>, f: Registered)
    ensures forall e :: First(added + [f], e) ==
              if First(added, e).Some? then First(added, e) else if f.endpoint == e then Some(f) else None
    ensures First(added, f.endpoint).None? ==> forall g :: g in added ==> g.endpoint != f.endpoint
  {
    assert (added + [f])[..|added|] == added;
    FirstMissing(added, f.endpoint);
  }

  lemma {:induction false} FirstMissing(added: seq<Registered>, endpoint: string)
    ensures First(added, endpoint).None? <==> forall g :: g in added ==> g.endpoint != endpoint
  {
    if added != [] {
      var last := |added| - 1;
      FirstMissing(added[..last], endpoint);
      assert added == added[..last] + [added[last]];
    }
  }

  /** `k` is the first position whose function was registered under the same segments. */
  ghost predicate FirstWithSegments(registered: seq<seq<string>>, segments: seq<string>, k: nat) {
    && k < |registered| && registered[k] == segments
    && forall i :: 0 <= i < k ==> registered[i] != segments
  }

  /**
   * With endpoints in joined form, a request is answered by the first function registered under its own segments; a
   * later one under the same segments is never found, whatever its method.
   */
  lemma {:induction false} FirstBySegments(added: seq<Registered>, registered: seq<seq<string>>, segments: seq<string>)
    requires |added| == |registered| && SlashFree(segments)
    requires forall i :: 0 <= i < |added| ==> SlashFree(registered[i]) && added[i].endpoint == Join(registered[i])
    ensures forall k: nat ::
              FirstWithSegments(registered, segments, k) ==> First(added, Join(segments)) == Some(added[k])
    ensures First(added, Join(segments)).Some? ==> exists k: nat :: FirstWithSegments(registered, segments, k)
  {
    if added != [] {
      var last := |added| - 1;
      FirstBySegments(added[..last], registered[..last], segments);
      JoinInjective(registered[last], segments);
      var before := First(added[..last], Join(segments));
      if before.Some? {
        var k: nat :| FirstWithSegments(registered[..last], segments, k);
        assert FirstWithSegments(registered, segments, k);
      } else if added[last].endpoint == Join(segments) {
        FirstMissing(added[..last], Join(segments));
        forall i | 0 <= i < last
          ensures registered[i] != segments
        {
          assert added[i] in added[..last];
        }
        assert FirstWithSegments(registered, segments, last);
      }
      forall k: nat | FirstWithSegments(registered, segments, k)
        ensures First(added, Join(segments)) == Some(added[k])
      {
        if k < last {
          assert FirstWithSegments(registered[..last], segments, k);
        }
      }
    }
  }
}
