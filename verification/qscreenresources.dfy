/**
  QScreenResources (qscreenresources.cpp): the backend-independent part of
  the screen resources. It looks outputs up by id and by connected name,
  caches the output map, and chooses a backend from the registered ones.
 */
module QScreenResources {
  import opened OrdMap
  import opened QOutput

  /** QScreenResources::output(outputId): the mapped output, or null when the id is absent. */
  function OutputById(m: Entries<Output>, id: nat): (r: Option<Output>)
    requires Sorted(m)
    ensures r.Some? <==> id in Keys(m)
    ensures r.Some? ==> (id, r.value) in m
  {
    Get(m, id)
  }

  /** Whether `output(name)` accepts an output: connected, and named `name` exactly. */
  predicate NamedConnected(o: Output, name: string) {
    o.connection == Connected && o.name.Chars() == name
  }

  /**
    QScreenResources::output(name): the position, in key order, of the
    first connected output whose name equals `name` case-sensitively. A
    null name compares equal to the empty one, as QString::compare does.
   */
  function OutputByName(m: Entries<Output>, name: string): (r: Option<nat>)
    ensures r.Some? ==> r.value < |m| && NamedConnected(m[r.value].1, name)
                        && forall j :: 0 <= j < r.value ==> !NamedConnected(m[j].1, name)
    ensures r.None? <==> forall j :: 0 <= j < |m| ==> !NamedConnected(m[j].1, name)
    decreases |m|
  {
    if |m| == 0 then None
    else if NamedConnected(m[0].1, name) then Some(0)
    else
      var rest := OutputByName(m[1..], name);
      assert forall j :: 1 <= j < |m| ==> m[j] == m[1..][j - 1];
      if rest.None? then None else Some(rest.value + 1)
  }

  /**
    The output found by name is the one with the smallest id among the
    connected outputs of that name.
   */
  lemma OutputByNameSmallestKey(m: Entries<Output>, name: string, k: nat)
    requires Sorted(m) && OutputByName(m, name).Some?
    requires Contains(m, k) && NamedConnected(Get(m, k).value, name)
    ensures m[OutputByName(m, name).value].0 <= k
  {
    var i := OutputByName(m, name).value;
    var j := KeyPosition(m, k);
    GetAt(m, j);
    if j < i {
      assert false;
    }
  }

  /**
    When no two connected outputs share a name, looking up the name of a
    connected output finds that very output.
   */
  lemma OutputByNameFindsConnected(m: Entries<Output>, i: nat)
    requires i < |m| && m[i].1.connection == Connected
    requires forall j, l :: 0 <= j < l < |m| && m[j].1.connection == Connected && m[l].1.connection == Connected
               ==> m[j].1.name.Chars() != m[l].1.name.Chars()
    ensures OutputByName(m, m[i].1.name.Chars()) == Some(i)
  {
    var r := OutputByName(m, m[i].1.name.Chars());
    assert NamedConnected(m[i].1, m[i].1.name.Chars());
    if r.Some? && r.value != i {
      assert false;
    }
  }

  /** The output map after a call to outputs(refresh), and the ids it answers. */
  datatype Listed = Listed(outputs: Entries<Output>, ids: seq<nat>, refreshed: bool)

  /**
    QScreenResources::outputs(refresh): refreshes the cached output map
    (with the backend's refreshOutputs, `reload`) when it is empty or when
    asked to, then answers its ids in key order.
   */
  function Outputs(m: Entries<Output>, refresh: bool, reload: Entries<Output> -> Entries<Output>): (r: Listed)
    ensures r.refreshed <==> |m| == 0 || refresh
    ensures r.outputs == if r.refreshed then reload(m) else m
    ensures r.ids == Keys(r.outputs)
  {
    var refreshed := |m| == 0 || refresh;
    var next := if refreshed then reload(m) else m;
    Listed(next, Keys(next), refreshed)
  }

  /**
    The cache: once outputs() has produced a non-empty map, asking again
    without `refresh` answers the same ids and does not refresh.
   */
  lemma OutputsCached(m: Entries<Output>, refresh: bool, reload: Entries<Output> -> Entries<Output>,
                      later: Entries<Output> -> Entries<Output>)
    requires |Outputs(m, refresh, reload).outputs| > 0
    ensures var first := Outputs(m, refresh, reload);
            var second := Outputs(first.outputs, false, later);
            !second.refreshed && second.ids == first.ids && second.outputs == first.outputs
  {
  }

  /** Every id outputs() answers can be looked up with output(id). */
  lemma OutputsFindable(m: Entries<Output>, refresh: bool, reload: Entries<Output> -> Entries<Output>, i: nat)
    requires var r := Outputs(m, refresh, reload); Sorted(r.outputs) && i < |r.ids|
    ensures var r := Outputs(m, refresh, reload);
            OutputById(r.outputs, r.ids[i]) == Some(r.outputs[i].1)
  {
    GetAt(Outputs(m, refresh, reload).outputs, i);
  }

  /**
    A registered backend: its name and its create(forceBackend) factory,
    which answers None (nullptr) when the backend cannot be used.
   */
  datatype Backend<R> = Backend(name: string, make: bool -> Option<R>)

  /**
    availableBackends once used: left as it is when non-empty, otherwise
    filled by initBackends with the backends this build registers.
   */
  function Available<R>(list: seq<Backend<R>>, registered: seq<Backend<R>>): (r: seq<Backend<R>>)
    ensures |list| > 0 ==> r == list
    ensures |list| == 0 ==> r == registered
  {
    if |list| == 0 then registered else list
  }

  /**
    The lazy initialisation runs at most once: after a call that found
    backends, later calls see the same list, whatever they would register.
   */
  lemma AvailableOnce<R>(list: seq<Backend<R>>, registered: seq<Backend<R>>, again: seq<Backend<R>>)
    requires |Available(list, registered)| > 0
    ensures Available(Available(list, registered), again) == Available(list, registered)
  {
  }

  /** The backend list afterwards and the names listBackends answers. */
  datatype Names<R> = Names(backends: seq<Backend<R>>, names: seq<string>)

  /** QScreenResources::listBackends(): the names, in registration order. */
  function ListBackends<R>(list: seq<Backend<R>>, registered: seq<Backend<R>>): (r: Names<R>)
    ensures r.backends == Available(list, registered)
    ensures |r.names| == |r.backends|
    ensures forall i :: 0 <= i < |r.names| ==> r.names[i] == r.backends[i].name
  {
    var bs := Available(list, registered);
    Names(bs, seq(|bs|, i requires 0 <= i < |bs| => bs[i].name))
  }

  /** Qt::CaseInsensitive comparison of one character, folding ASCII letters. */
  function Lower(c: char): char {
    if 'A' <= c <= 'Z' then (c as int + 32) as char else c
  }

  /** QString::compare(a, b, Qt::CaseInsensitive) == 0, for ASCII case. */
  predicate SameIgnoringCase(a: string, b: string) {
    |a| == |b| && forall i :: 0 <= i < |a| ==> Lower(a[i]) == Lower(b[i])
  }

  /** Whether create(request) tries a backend: any when the request is empty, else the one it names. */
  predicate Tried<R>(b: Backend<R>, request: string) {
    request == [] || SameIgnoringCase(request, b.name)
  }

  /**
    The loop of create: the first backend that is tried and whose factory,
    forced exactly when a backend was requested, does not answer null.
   */
  function Pick<R>(bs: seq<Backend<R>>, request: string): (r: Option<R>)
    ensures r.Some? ==> exists i :: 0 <= i < |bs| && Tried(bs[i], request) && bs[i].make(request != []) == r
                          && forall j :: 0 <= j < i && Tried(bs[j], request) ==> bs[j].make(request != []).None?
    ensures r.None? <==> forall i :: 0 <= i < |bs| && Tried(bs[i], request) ==> bs[i].make(request != []).None?
    decreases |bs|
  {
    if |bs| == 0 then None
    else
      var rest := Pick(bs[1..], request);
      assert forall j :: 1 <= j < |bs| ==> bs[j] == bs[1..][j - 1];
      if !Tried(bs[0], request) then rest
      else
        var made := bs[0].make(request != []);
        if made.Some? then made
        else
          rest
  }

  /** The backend list afterwards and the screen resources create answers. */
  datatype Created<R> = Created(backends: seq<Backend<R>>, resources: Option<R>)

  /**
    QScreenResources::create(backend): the backends are initialised once,
    and the answer comes from the first backend that is tried and whose
    factory succeeds; it is null exactly when every tried factory fails.
   */
  function Create<R>(list: seq<Backend<R>>, registered: seq<Backend<R>>, request: string): (r: Created<R>)
    ensures r.backends == Available(list, registered)
    ensures var bs := r.backends;
            r.resources.Some? ==>
              exists i :: 0 <= i < |bs| && Tried(bs[i], request) && bs[i].make(request != []) == r.resources
                          && forall j :: 0 <= j < i && Tried(bs[j], request) ==> bs[j].make(request != []).None?
    ensures var bs := r.backends;
            r.resources.None? <==> forall i :: 0 <= i < |bs| && Tried(bs[i], request) ==> bs[i].make(request != []).None?
  {
    var bs := Available(list, registered);
    Created(bs, Pick(bs, request))
  }

  /**
    A named request is answered only by a listed backend whose name matches
    it ignoring case, and that backend's factory was forced.
   */
  lemma CreateNamedIsListed<R>(list: seq<Backend<R>>, registered: seq<Backend<R>>, request: string)
    requires request != [] && Create(list, registered, request).resources.Some?
    ensures var names := ListBackends(list, registered).names;
            var bs := Available(list, registered);
            exists i :: 0 <= i < |names| && SameIgnoringCase(request, names[i])
                        && bs[i].make(true) == Create(list, registered, request).resources
  {
    var bs := Available(list, registered);
    var i :| 0 <= i < |bs| && Tried(bs[i], request) && bs[i].make(true) == Pick(bs, request)
             && forall j :: 0 <= j < i && Tried(bs[j], request) ==> bs[j].make(true).None?;
    assert ListBackends(list, registered).names[i] == bs[i].name;
  }

  /** With no request, create answers the first backend whose unforced factory succeeds. */
  lemma CreateDefaultIsFirst<R>(list: seq<Backend<R>>, registered: seq<Backend<R>>, i: nat)
    requires var bs := Available(list, registered);
             i < |bs| && bs[i].make(false).Some?
             && forall j :: 0 <= j < i ==> bs[j].make(false).None?
    ensures Create(list, registered, []).resources == Available(list, registered)[i].make(false)
  {
    var bs := Available(list, registered);
    var r := Pick(bs, []);
    assert Tried(bs[i], []);
    var k :| 0 <= k < |bs| && Tried(bs[k], []) && bs[k].make(false) == r
             && forall j :: 0 <= j < k && Tried(bs[j], []) ==> bs[j].make(false).None?;
    if k != i {
      assert false;
    }
  }

  /** Every letter of a string in lower case. */
  function LowerAll(s: string): (r: string)
    ensures |r| == |s| && forall i :: 0 <= i < |s| ==> r[i] == Lower(s[i])
  {
    seq(|s|, i requires 0 <= i < |s| => Lower(s[i]))
  }

  /**
    Whether create(request) tries a backend does not depend on the letter
    case of the request, and a named request matches a backend exactly when
    both names agree once lower-cased.
   */
  lemma CaseOfRequestIgnored<R>(b: Backend<R>, request: string)
    ensures Tried(b, LowerAll(request)) <==> Tried(b, request)
    ensures request != [] ==> (Tried(b, request) <==> LowerAll(request) == LowerAll(b.name))
  {
  }

  /**
    The KScreen backend is registered as "KScreen" followed by the KScreen
    version: a request must spell the version too, in any case, and the
    bare "kscreen" selects nothing.
   */
  lemma VersionedKScreenName(version: string)
    requires version != []
    ensures SameIgnoringCase(LowerAll("KScreen" + version), "KScreen" + version)
    ensures !SameIgnoringCase("kscreen", "KScreen" + version)
  {
  }
}
