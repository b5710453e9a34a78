/**
 * The request-shaping layer of app.py: required-field validation, the
 * responses the three algorithm endpoints build, the transaction log entry
 * each of them writes, the routes, and the health-check payload. Flask, the
 * clock and all file output are outside the model: the elapsed time of the
 * algorithm call is a parameter, and the log entry is returned as data.
 */
module Api {
  import opened Wrappers
  import opened Json
  import opened Ordering
  import Sorting
  import Searching
  import Traversal

  /** What `log_transaction` records for one call. */
  datatype LogEntry = LogEntry(algorithm: string, request: Value, response: Value, executionTimeMs: Option<real>)

  /**
   * How a handler ends: a reply (HTTP status and JSON body) together with the
   * one transaction-log entry written for it; an exception escaping the
   * handler before anything is logged; or an accepted request whose fields
   * have a shape the model does not cover, where Python may still compute an
   * answer: an `array` that is not a list of integers (a string, a list of
   * floats or of strings), a `target` that is not an integer, a `graph` that
   * is not an object of string lists, or a `start_node` that is not a string.
   */
  datatype Outcome =
    | Reply(status: int, body: Value, entry: LogEntry)
    | Raised
    | Unmodelled

  /** The verdict of the required-field test on a request body. */
  datatype Check =
    | Rejected
    | Raises
    | Accepted(fields: map<string, Value>)

  /**
   * The `'f' not in data` tests, left to right, on a truthy body, followed by
   * the handler's first `data['f']`, which raises unless the body is a dict.
   * A string or list body is rejected when some required name is not a
   * substring or element of it, and otherwise raises at that indexing.
   */
  function CheckEach(data: Value, required: seq<string>): (c: Check)
    ensures c.Accepted? <==> data.Object? && forall f :: f in required ==> f in data.fields
    ensures c.Accepted? ==> c.fields == data.fields
    ensures data.Object? ==> (c.Rejected? <==> exists f :: f in required && f !in data.fields)
    ensures c.Raises? ==> !data.Object?
    ensures data.Str? || data.Array? ==>
      (c.Rejected? <==> exists f :: f in required && Contains(data, f) == Some(false))
    ensures data.Str? || data.Array? ==>
      (c.Raises? <==> forall f :: f in required ==> Contains(data, f) == Some(true))
    decreases |required|
  {
    if |required| == 0 then
      if data.Object? then Accepted(data.fields) else Raises
    else
      match Contains(data, required[0])
      case None => Raises
      case Some(present) =>
        if present then CheckEach(data, required[1..]) else Rejected
  }

  /**
   * `if not data or 'f1' not in data or ...`: a missing, null or empty body
   * is rejected, and so is a dict lacking any required field; a dict holding
   * them all is accepted. A truthy number or `True` raises in the `in` test.
   * A non-empty string or list is rejected when some required name is not a
   * substring or element of it; otherwise it raises when the handler indexes
   * it.
   */
  function Validate(data: Value, required: seq<string>): (c: Check)
    ensures c.Accepted? <==> !Falsy(data) && data.Object? && forall f :: f in required ==> f in data.fields
    ensures c.Accepted? ==> c.fields == data.fields
    ensures Falsy(data) ==> c.Rejected?
    ensures data.Object? ==> (c.Rejected? <==> Falsy(data) || exists f :: f in required && f !in data.fields)
    ensures c.Raises? ==> !Falsy(data) && !data.Object?
    ensures |required| > 0 && !Falsy(data) && (data.Bool? || data.Int? || data.Float?) ==> c.Raises?
    ensures !Falsy(data) && (data.Str? || data.Array?) ==>
      (c.Rejected? <==> exists f :: f in required && Contains(data, f) == Some(false))
    ensures !Falsy(data) && (data.Str? || data.Array?) ==>
      (c.Raises? <==> forall f :: f in required ==> Contains(data, f) == Some(true))
  {
    if Falsy(data) then Rejected else CheckEach(data, required)
  }

  const SearchFields: seq<string> := ["array", "target"]
  const SearchMissing := "Missing required fields: array and target required"
  const SortFields: seq<string> := ["array"]
  const SortMissing := "Missing required field: array"
  const BfsFields: seq<string> := ["graph", "start_node"]
  const BfsMissing := "Missing required fields: graph and start_node required"

  /** The 400 reply to a request that failed validation: an error body, logged with no execution time. */
  predicate IsRejection(out: Outcome, algorithm: string, data: Value, message: string) {
    && out.Reply?
    && out.status == 400
    && out.body == Object(map["status" := Str("error"), "message" := Str(message)])
    && out.entry == LogEntry(algorithm, data, out.body, None)
  }

  function Rejection(algorithm: string, data: Value, message: string): (out: Outcome)
    ensures IsRejection(out, algorithm, data, message)
  {
    var body := Object(map["status" := Str("error"), "message" := Str(message)]);
    Reply(400, body, LogEntry(algorithm, data, body, None))
  }

  /** A 200 reply whose log entry records the request, the reply body and the elapsed time. */
  predicate IsSuccess(out: Outcome, algorithm: string, data: Value, elapsedMs: real) {
    && out.Reply?
    && out.status == 200
    && out.body.Object?
    && "status" in out.body.fields && out.body.fields["status"] == Str("success")
    && "execution_time_ms" in out.body.fields && out.body.fields["execution_time_ms"] == Float(elapsedMs)
    && out.entry == LogEntry(algorithm, data, out.body, Some(elapsedMs))
  }

  /**
   * Python's built-in `sorted`, of which the handler relies only on its
   * returning the sorted permutation. Every sorted permutation of a sequence
   * is the same sequence (Ordering.SortedPermutationUnique), so computing it
   * with QuickSort changes nothing observable.
   */
  function BuiltinSorted(xs: seq<int>): (r: seq<int>)
    ensures IsSortedPermutation(r, xs)
  {
    Sorting.QuickSort(xs)
  }

  // ---------------------------------------------------------------- binary search

  /** The accepted fields are in the modelled shape: an integer array and an integer target. */
  predicate SearchInputs(fields: map<string, Value>) {
    && "array" in fields && IntsOf(fields["array"]).Some?
    && "target" in fields && fields["target"].Int?
  }

  /**
   * What the search reports about `target` in `original`: `sorted` is the
   * sorted permutation, `found` says exactly whether the target occurs, and
   * `position` is an index of the target in `sorted`, or null.
   */
  predicate SearchAnswer(original: seq<int>, target: int, sorted: seq<int>, found: Value, position: Value) {
    && IsSortedPermutation(sorted, original)
    && found == Bool(target in original)
    && (if target in original
        then position.Int? && 0 <= position.i < |sorted| && sorted[position.i] == target
        else position == Null)
  }

  /**
   * The successful binary-search reply: the input array and target echoed,
   * and the sorted array, `found` and `position` as SearchAnswer describes.
   */
  predicate SearchReply(data: Value, elapsedMs: real, out: Outcome) {
    && data.Object? && SearchInputs(data.fields)
    && IsSuccess(out, "binary_search", data, elapsedMs)
    && var f := out.body.fields;
    && f.Keys == {"status", "original_array", "sorted_array", "target", "found", "position", "execution_time_ms"}
    && f["original_array"] == data.fields["array"]
    && f["target"] == data.fields["target"]
    && IntsOf(f["sorted_array"]).Some?
    && SearchAnswer(IntsOf(data.fields["array"]).value, data.fields["target"].i,
                    IntsOf(f["sorted_array"]).value, f["found"], f["position"])
  }

  /**
   * `found = result != -1` and `position = result if result != -1 else None`
   * on the sorted array answer the question about the original array.
   */
  lemma SearchAnswerFromResult(original: seq<int>, target: int, sorted: seq<int>, result: int)
    requires IsSortedPermutation(sorted, original)
    requires result == Searching.NotFound || (0 <= result < |sorted| && sorted[result] == target)
    requires result == Searching.NotFound <==> target !in sorted
    ensures SearchAnswer(original, target, sorted, Bool(result != Searching.NotFound),
                         if result != Searching.NotFound then Int(result) else Null)
  {
    assert target in sorted <==> target in original by {
      assert target in multiset(sorted) <==> target in multiset(original);
    }
  }

  /**
   * The success path of `binary_search_api`: sort the array, search the
   * sorted copy, and derive `found` and `position` from the -1 convention.
   */
  method SearchSuccess(data: Value, elapsedMs: real) returns (out: Outcome)
    requires data.Object? && SearchInputs(data.fields)
    ensures SearchReply(data, elapsedMs, out)
  {
    var original := IntsOf(data.fields["array"]).value;
    var target := data.fields["target"].i;
    var sorted := BuiltinSorted(original);
    var result := Searching.BinarySearch(sorted, target);
    var found := Bool(result != Searching.NotFound);
    var position := if result != Searching.NotFound then Int(result) else Null;
    SearchAnswerFromResult(original, target, sorted, result);
    IntArrayRoundTrip(sorted);
    var f := SearchBody(data.fields["array"], IntArray(sorted), data.fields["target"], found, position, elapsedMs);
    out := Reply(200, Object(f), LogEntry("binary_search", data, Object(f), Some(elapsedMs)));
  }

  /** The fields of the binary-search success body, in the order the handler writes them. */
  function SearchBody(original: Value, sorted: Value, target: Value, found: Value, position: Value,
                      elapsedMs: real): (f: map<string, Value>)
    ensures f.Keys == {"status", "original_array", "sorted_array", "target", "found", "position", "execution_time_ms"}
    ensures f["status"] == Str("success") && f["execution_time_ms"] == Float(elapsedMs)
    ensures f["original_array"] == original && f["sorted_array"] == sorted && f["target"] == target
    ensures f["found"] == found && f["position"] == position
  {
    map[
      "status" := Str("success"),
      "original_array" := original,
      "sorted_array" := sorted,
      "target" := target,
      "found" := found,
      "position" := position,
      "execution_time_ms" := Float(elapsedMs)]
  }

  /** `binary_search_api`: a rejected request gets the 400 reply, an accepted one the search reply. */
  method BinarySearchApi(data: Value, elapsedMs: real) returns (out: Outcome)
    ensures Validate(data, SearchFields).Rejected? <==> IsRejection(out, "binary_search", data, SearchMissing)
    ensures Validate(data, SearchFields).Raises? <==> out.Raised?
    ensures out.Unmodelled? <==> Validate(data, SearchFields).Accepted? && !SearchInputs(data.fields)
    ensures Validate(data, SearchFields).Accepted? && SearchInputs(data.fields) ==> SearchReply(data, elapsedMs, out)
  {
    match Validate(data, SearchFields)
    case Rejected =>
      out := Rejection("binary_search", data, SearchMissing);
    case Raises =>
      out := Raised;
    case Accepted(fields) =>
      if !SearchInputs(fields) {
        return Unmodelled;
      }
      out := SearchSuccess(data, elapsedMs);
  }

  // ---------------------------------------------------------------- quick sort

  /** The accepted fields are in the modelled shape: an integer array. */
  predicate SortInputs(fields: map<string, Value>) {
    "array" in fields && IntsOf(fields["array"]).Some?
  }

  /** The successful quick-sort reply: the input array echoed and its sorted permutation. */
  predicate SortReply(data: Value, elapsedMs: real, out: Outcome) {
    && data.Object? && SortInputs(data.fields)
    && IsSuccess(out, "quick_sort", data, elapsedMs)
    && var f := out.body.fields;
    && f.Keys == {"status", "original_array", "sorted_array", "execution_time_ms"}
    && f["original_array"] == data.fields["array"]
    && IntsOf(f["sorted_array"]).Some?
    && IsSortedPermutation(IntsOf(f["sorted_array"]).value, IntsOf(data.fields["array"]).value)
  }

  /** `quick_sort_api`: validate, then sort a copy of the array, leaving the echoed input as it was. */
  method QuickSortApi(data: Value, elapsedMs: real) returns (out: Outcome)
    ensures Validate(data, SortFields).Rejected? <==> IsRejection(out, "quick_sort", data, SortMissing)
    ensures Validate(data, SortFields).Raises? <==> out.Raised?
    ensures out.Unmodelled? <==> Validate(data, SortFields).Accepted? && !SortInputs(data.fields)
    ensures Validate(data, SortFields).Accepted? && SortInputs(data.fields) ==> SortReply(data, elapsedMs, out)
  {
    match Validate(data, SortFields)
    case Rejected =>
      out := Rejection("quick_sort", data, SortMissing);
    case Raises =>
      out := Raised;
    case Accepted(fields) =>
      if !SortInputs(fields) {
        return Unmodelled;
      }
      var sorted := Sorting.QuickSort(IntsOf(fields["array"]).value);
      IntArrayRoundTrip(sorted);
      var response := Object(SortBody(fields["array"], IntArray(sorted), elapsedMs));
      out := Reply(200, response, LogEntry("quick_sort", data, response, Some(elapsedMs)));
  }

  /** The fields of the quick-sort success body. */
  function SortBody(original: Value, sorted: Value, elapsedMs: real): (f: map<string, Value>)
    ensures f.Keys == {"status", "original_array", "sorted_array", "execution_time_ms"}
    ensures f["status"] == Str("success") && f["execution_time_ms"] == Float(elapsedMs)
    ensures f["original_array"] == original && f["sorted_array"] == sorted
  {
    map[
      "status" := Str("success"),
      "original_array" := original,
      "sorted_array" := sorted,
      "execution_time_ms" := Float(elapsedMs)]
  }

  // ---------------------------------------------------------------- breadth-first search

  /** The adjacency lists of a JSON object whose every value is an array of strings. */
  function GraphOf(v: Value): (r: Option<map<string, seq<string>>>)
    ensures r.Some? <==> v.Object? && forall k :: k in v.fields ==> StrsOf(v.fields[k]).Some?
    ensures r.Some? ==> r.value.Keys == v.fields.Keys
    ensures r.Some? ==> forall k :: k in v.fields ==> v.fields[k] == StrArray(r.value[k])
  {
    if v.Object? && forall k :: k in v.fields ==> StrsOf(v.fields[k]).Some? then
      Some(map k | k in v.fields :: StrsOf(v.fields[k]).value)
    else None
  }

  /** The accepted fields are in the modelled shape: string adjacency lists and a string start node. */
  predicate BfsInputs(fields: map<string, Value>) {
    && "graph" in fields && GraphOf(fields["graph"]).Some?
    && "start_node" in fields && fields["start_node"].Str?
  }

  /**
   * The successful BFS reply: graph and start node echoed, and a traversal
   * path that is the breadth-first order of the graph from the start node
   * (empty when the start node is not a key). By Traversal.BfsOrderUnique
   * this fixes the path completely.
   */
  ghost predicate BfsReply(data: Value, elapsedMs: real, out: Outcome) {
    && data.Object? && BfsInputs(data.fields)
    && IsSuccess(out, "bfs", data, elapsedMs)
    && var g, start := GraphOf(data.fields["graph"]).value, data.fields["start_node"].s;
    && var f := out.body.fields;
    && f.Keys == {"status", "graph", "start_node", "traversal_path", "execution_time_ms"}
    && f["graph"] == data.fields["graph"]
    && f["start_node"] == data.fields["start_node"]
    && StrsOf(f["traversal_path"]).Some?
    && var path := StrsOf(f["traversal_path"]).value;
    && Traversal.IsBfsOrder(g, start, path)
  }

  /** `bfs_api`: validate, then traverse the graph from the start node. */
  method BfsApi(data: Value, elapsedMs: real) returns (out: Outcome)
    ensures Validate(data, BfsFields).Rejected? <==> IsRejection(out, "bfs", data, BfsMissing)
    ensures Validate(data, BfsFields).Raises? <==> out.Raised?
    ensures out.Unmodelled? <==> Validate(data, BfsFields).Accepted? && !BfsInputs(data.fields)
    ensures Validate(data, BfsFields).Accepted? && BfsInputs(data.fields) ==> BfsReply(data, elapsedMs, out)
  {
    match Validate(data, BfsFields)
    case Rejected =>
      out := Rejection("bfs", data, BfsMissing);
    case Raises =>
      out := Raised;
    case Accepted(fields) =>
      if !BfsInputs(fields) {
        return Unmodelled;
      }
      var g := GraphOf(fields["graph"]).value;
      var path := Traversal.Bfs(g, fields["start_node"].s);
      StrArrayRoundTrip(path);
      var response := Object(BfsBody(fields["graph"], fields["start_node"], StrArray(path), elapsedMs));
      out := Reply(200, response, LogEntry("bfs", data, response, Some(elapsedMs)));
  }

  /** The fields of the BFS success body. */
  function BfsBody(graph: Value, start: Value, path: Value, elapsedMs: real): (f: map<string, Value>)
    ensures f.Keys == {"status", "graph", "start_node", "traversal_path", "execution_time_ms"}
    ensures f["status"] == Str("success") && f["execution_time_ms"] == Float(elapsedMs)
    ensures f["graph"] == graph && f["start_node"] == start && f["traversal_path"] == path
  {
    map[
      "status" := Str("success"),
      "graph" := graph,
      "start_node" := start,
      "traversal_path" := path,
      "execution_time_ms" := Float(elapsedMs)]
  }

  // ---------------------------------------------------------------- routes and health check

  datatype Verb = Get | Post

  datatype Endpoint = Health | BinarySearchEndpoint | QuickSortEndpoint | BfsEndpoint

  /** The bare POST paths of the three algorithm endpoints. */
  const AlgorithmPaths: seq<string> := ["/binary-search", "/quick-sort", "/bfs"]

  /** The route table: each algorithm under a bare path and an `/api/` alias, the health check at `/`. */
  function Route(verb: Verb, path: string): (r: Option<Endpoint>)
    ensures r == Some(Health) <==> verb == Get && path == "/"
    ensures r.Some? <==>
      || (verb == Get && path == "/")
      || (verb == Post && exists p :: p in AlgorithmPaths && (path == p || path == "/api" + p))
  {
    assert "/api" + AlgorithmPaths[0] == "/api/binary-search";
    assert "/api" + AlgorithmPaths[1] == "/api/quick-sort";
    assert "/api" + AlgorithmPaths[2] == "/api/bfs";
    match verb
    case Get => if path == "/" then Some(Health) else None
    case Post =>
      if path == "/binary-search" || path == "/api/binary-search" then Some(BinarySearchEndpoint)
      else if path == "/quick-sort" || path == "/api/quick-sort" then Some(QuickSortEndpoint)
      else if path == "/bfs" || path == "/api/bfs" then Some(BfsEndpoint)
      else None
  }

  /**
   * The `/api/` alias of each algorithm path reaches the same handler as the
   * bare path, and the three bare paths reach three different handlers.
   */
  lemma RouteAliases()
    ensures forall p :: p in AlgorithmPaths ==> Route(Post, "/api" + p) == Route(Post, p)
    ensures Route(Post, AlgorithmPaths[0]) == Some(BinarySearchEndpoint)
    ensures Route(Post, AlgorithmPaths[1]) == Some(QuickSortEndpoint)
    ensures Route(Post, AlgorithmPaths[2]) == Some(BfsEndpoint)
  {
  }

  /**
   * `health_check`: always `online`, and its endpoint list names, once each,
   * exactly the paths that accept a POST.
   */
  function HealthCheck(): (r: Value)
    ensures r.Object? && r.fields.Keys == {"status", "message", "endpoints"}
    ensures r.fields["status"] == Str("online")
    ensures r.fields["message"] == Str("Algorithm API is running")
    ensures StrsOf(r.fields["endpoints"]).Some?
    ensures Traversal.Distinct(StrsOf(r.fields["endpoints"]).value)
    ensures forall p :: p in StrsOf(r.fields["endpoints"]).value <==> Route(Post, p).Some?
    ensures |StrsOf(r.fields["endpoints"]).value| == 2 * |AlgorithmPaths|
    ensures forall i :: 0 <= i < |AlgorithmPaths| ==>
      && StrsOf(r.fields["endpoints"]).value[i] == AlgorithmPaths[i]
      && StrsOf(r.fields["endpoints"]).value[|AlgorithmPaths| + i] == "/api" + AlgorithmPaths[i]
  {
    var endpoints := ["/binary-search", "/quick-sort", "/bfs", "/api/binary-search", "/api/quick-sort", "/api/bfs"];
    StrArrayRoundTrip(endpoints);
    assert "/api" + AlgorithmPaths[0] == "/api/binary-search";
    assert "/api" + AlgorithmPaths[1] == "/api/quick-sort";
    assert "/api" + AlgorithmPaths[2] == "/api/bfs";
    Object(map[
      "status" := Str("online"),
      "message" := Str("Algorithm API is running"),
      "endpoints" := StrArray(endpoints)])
  }
}
