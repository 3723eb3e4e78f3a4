/**
 * The endpoint set builder: turns an OpenAPI `paths -> method -> details` document into the
 * set of descriptors `METHOD PATH (in:name, ...)`.
 *
 * The document keeps the iteration order of the JSON objects it was parsed from: a
 * sequence of path items, each with a sequence of operations.
 */
module Endpoints {
  import opened Wrappers
  import opened Text
  import opened Images

  /** One entry of an operation's `parameters` list; `in` and `name` may be missing. */
  datatype Param = Param(location: Option<string>, name: Option<string>)

  /** One `method -> details` entry (`verb` is the method name); `parameters` is `None` when `details` has no such key. */
  datatype Operation = Operation(verb: string, parameters: Option<seq<Param>>)

  /** One `path -> methods` entry of `paths`. */
  datatype PathItem = PathItem(path: string, operations: seq<Operation>)

  /**
   * The specification document: its `paths` member, if the key is present, and whether the
   * object has any other key (which is what makes a document without `paths` truthy).
   */
  datatype SpecDoc = SpecDoc(paths: Option<seq<PathItem>>, hasOtherKeys: bool)

  const UNKNOWN := "unknown"

  /** Python truthiness of the fetched document: present and not the empty object. */
  predicate Truthy(spec: Option<SpecDoc>) {
    spec.Some? && (spec.value.paths.Some? || spec.value.hasOtherKeys)
  }

  /** The `not swagger_spec or 'paths' not in swagger_spec` test, negated. */
  predicate HasPaths(spec: Option<SpecDoc>) {
    spec.Some? && spec.value.paths.Some?
  }

  /** `in:name` for one parameter, with `unknown` for a missing field. */
  function ParamEntry(p: Param): string {
    p.location.GetOr(UNKNOWN) + ":" + p.name.GetOr(UNKNOWN)
  }

  /** The parameter entries of a list, in declaration order. */
  function ParamEntries(ps: seq<Param>): (r: seq<string>)
    ensures |r| == |ps|
    ensures forall k :: 0 <= k < |ps| ==> r[k] == ParamEntry(ps[k])
  {
    if ps == [] then [] else ParamEntries(ps[..|ps| - 1]) + [ParamEntry(ps[|ps| - 1])]
  }

  /** The entries an operation contributes: none when it declares no `parameters`. */
  function OperationParams(op: Operation): seq<string> {
    if op.parameters.Some? then ParamEntries(op.parameters.value) else []
  }

  /** ` (e1, e2, ...)` for a non-empty entry list, nothing otherwise. */
  function Suffix(params: seq<string>): string {
    if params != [] then " (" + Join(", ", params) + ")" else ""
  }

  /** The descriptor of one (path, operation) pair. */
  function Descriptor(path: string, op: Operation): string {
    Upper(op.verb) + " " + path + Suffix(OperationParams(op))
  }

  /**
   * The layout of a descriptor: the upper-cased method, a space, the path, and then either
   * nothing (no parameters) or ` (`, the comma-separated entries and `)`.
   */
  lemma DescriptorLayout(path: string, op: Operation)
    ensures var d, head := Descriptor(path, op), Upper(op.verb) + " " + path;
      && head <= d
      && (OperationParams(op) == [] <==> d == head)
      && (OperationParams(op) != [] ==>
            d[|head|..] == " (" + Join(", ", OperationParams(op)) + ")" && d[|d| - 1] == ')')
  {
  }

  /** Every entry is `in:name` of the parameter at the same position, defaults applied. */
  lemma ParamEntriesInOrder(op: Operation)
    requires op.parameters.Some?
    ensures |OperationParams(op)| == |op.parameters.value|
    ensures forall k :: 0 <= k < |op.parameters.value| ==>
      var p := op.parameters.value[k];
      && (p.location.Some? ==> OperationParams(op)[k] == p.location.value + ":" + p.name.GetOr(UNKNOWN))
      && (p.location.None? ==> OperationParams(op)[k] == "unknown:" + p.name.GetOr(UNKNOWN))
      && (p.name.None? ==> OperationParams(op)[k] == p.location.GetOr(UNKNOWN) + ":unknown")
  {
  }

  /** The descriptor of an operation on `path`, as a function value. */
  function DescribeOn(path: string): Operation -> string {
    op => Descriptor(path, op)
  }

  /** The descriptors of a path's operations, as the inner loop collects them. */
  function ItemDescriptors(item: PathItem): set<string> {
    Image(item.operations, DescribeOn(item.path))
  }

  /** The descriptors of all path items, as the outer loop collects them. */
  function PathDescriptors(items: seq<PathItem>): set<string> {
    UnionOf(items, ItemDescriptors)
  }

  /** The result of `extract_endpoints`. */
  function EndpointSet(spec: Option<SpecDoc>): set<string> {
    if HasPaths(spec) then PathDescriptors(spec.value.paths.value) else {}
  }

  /** The number of (path, method) pairs of the document. */
  function PairCount(items: seq<PathItem>): nat {
    if items == [] then 0 else PairCount(items[..|items| - 1]) + |items[|items| - 1].operations|
  }

  /** A falsy document, or one without `paths`, yields no endpoints. */
  lemma NoPathsNoEndpoints(spec: Option<SpecDoc>)
    requires !Truthy(spec) || spec.value.paths.None?
    ensures EndpointSet(spec) == {}
  {
  }

  /**
   * The endpoint set holds exactly the descriptors of the (path, method) pairs of the
   * document: every pair contributes one, and nothing else is in the set.
   */
  lemma PathDescriptorsMembers(items: seq<PathItem>, d: string)
    ensures d in PathDescriptors(items) <==>
      exists i, j :: 0 <= i < |items| && 0 <= j < |items[i].operations| &&
        d == Descriptor(items[i].path, items[i].operations[j])
  {
    UnionMembers(items, ItemDescriptors, d);
    if d in PathDescriptors(items) {
      var i :| 0 <= i < |items| && d in ItemDescriptors(items[i]);
      ImageMembers(items[i].operations, DescribeOn(items[i].path), d);
      var j :| 0 <= j < |items[i].operations| && d == DescribeOn(items[i].path)(items[i].operations[j]);
      assert d == Descriptor(items[i].path, items[i].operations[j]);
    }
    if (exists i, j :: 0 <= i < |items| && 0 <= j < |items[i].operations| &&
          d == Descriptor(items[i].path, items[i].operations[j]))
    {
      var i, j :| 0 <= i < |items| && 0 <= j < |items[i].operations| &&
        d == Descriptor(items[i].path, items[i].operations[j]);
      ImageMembers(items[i].operations, DescribeOn(items[i].path), d);
      assert d == DescribeOn(items[i].path)(items[i].operations[j]);
    }
  }

  /** Duplicate descriptors collapse, so there are at most as many as (path, method) pairs. */
  lemma {:induction false} PathDescriptorsSize(items: seq<PathItem>)
    ensures |PathDescriptors(items)| <= PairCount(items)
  {
    if items != [] {
      var last := items[|items| - 1];
      PathDescriptorsSize(items[..|items| - 1]);
      ImageSize(last.operations, DescribeOn(last.path));
    }
  }

  /** The `params` list of one operation, built by appending one entry per declared parameter. */
  method CollectParams(op: Operation) returns (params: seq<string>)
    ensures params == OperationParams(op)
  {
    params := [];
    if op.parameters.Some? {
      var declared := op.parameters.value;
      var k := 0;
      while k < |declared|
        invariant 0 <= k <= |declared|
        invariant params == ParamEntries(declared[..k])
      {
        params := params + [ParamEntry(declared[k])];
        k := k + 1;
        assert declared[..k][..k - 1] == declared[..k - 1];
      }
      assert declared[..k] == declared;
    }
  }

  /** The descriptor of one operation: the `params` list, the optional suffix, and the upper-cased method. */
  method FormatEndpoint(path: string, op: Operation) returns (endpoint: string)
    ensures endpoint == DescribeOn(path)(op)
  {
    var params := CollectParams(op);
    var paramStr := if params != [] then " (" + Join(", ", params) + ")" else "";
    endpoint := Upper(op.verb) + " " + path + paramStr;
  }

  /** `extract_endpoints`, with its nested loops over paths, methods and parameters. */
  method ExtractEndpoints(spec: Option<SpecDoc>) returns (endpoints: set<string>)
    ensures endpoints == EndpointSet(spec)
    ensures !HasPaths(spec) ==> endpoints == {}
    ensures HasPaths(spec) ==> |endpoints| <= PairCount(spec.value.paths.value)
  {
    if !HasPaths(spec) {
      return {};
    }
    endpoints := {};
    var paths := spec.value.paths.value;
    var i := 0;
    while i < |paths|
      invariant 0 <= i <= |paths|
      invariant endpoints == PathDescriptors(paths[..i])
    {
      var item := paths[i];
      var j := 0;
      while j < |item.operations|
        invariant 0 <= j <= |item.operations|
        invariant endpoints ==
          PathDescriptors(paths[..i]) + Image(item.operations[..j], DescribeOn(item.path))
      {
        var endpoint := FormatEndpoint(item.path, item.operations[j]);
        endpoints := endpoints + {endpoint};
        j := j + 1;
        assert item.operations[..j][..j - 1] == item.operations[..j - 1];
      }
      assert item.operations[..j] == item.operations;
      i := i + 1;
      assert paths[..i][..i - 1] == paths[..i - 1];
    }
    assert paths[..i] == paths;
    PathDescriptorsSize(paths);
  }

  /** `{"paths": {"/coins": {"get": {}}}}` yields `{"GET /coins"}`. */
  lemma PlainOperationExample()
    ensures EndpointSet(Some(SpecDoc(Some([PathItem("/coins", [Operation("get", None)])]), false)))
      == {"GET /coins"}
  {
    var op := Operation("get", None);
    assert Upper("get") == "GET";
    assert Descriptor("/coins", op) == "GET /coins";
    assert [op][..0] == [];
    assert Image([op], DescribeOn("/coins")) == {"GET /coins"};
    var items := [PathItem("/coins", [op])];
    assert items[..0] == [];
  }

  /** A path parameter shows up as `(path:id)`. */
  lemma PathParameterExample()
    ensures EndpointSet(Some(SpecDoc(Some([PathItem("/coins/{id}",
      [Operation("get", Some([Param(Some("path"), Some("id"))]))])]), false)))
      == {"GET /coins/{id} (path:id)"}
  {
    var op := Operation("get", Some([Param(Some("path"), Some("id"))]));
    assert Upper("get") == "GET";
    assert ParamEntry(Param(Some("path"), Some("id"))) == "path:id";
    assert OperationParams(op) == ["path:id"];
    assert Descriptor("/coins/{id}", op) == "GET /coins/{id} (path:id)";
    assert [op][..0] == [];
    assert Image([op], DescribeOn("/coins/{id}")) == {"GET /coins/{id} (path:id)"};
    var items := [PathItem("/coins/{id}", [op])];
    assert items[..0] == [];
  }
}
