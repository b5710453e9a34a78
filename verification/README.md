# Algorithm API — a verified model

This project models a small web service. It exposes three textbook
algorithms over HTTP:

- binary search of an integer in an array;
- quick sort of an array;
- breadth-first traversal of an adjacency-list graph.

It also has a health-check endpoint. The model covers the three algorithms
(`algorithms.py`) and the request-shaping layer of the service (`app.py`):

- the required-field validation of each endpoint;
- the response each handler builds from the algorithm's result;
- the transaction-log entry each handler writes, as data;
- the route table;
- the fixed health-check payload.

Modules:

- `Ordering`: sortedness, "sorted permutation", and the fact that a sequence
  has only one sorted permutation.
- `Searching`: `binary_search` as a `while` loop with invariants and a
  termination measure.
- `Sorting`: `quick_sort` as a recursive function over the three-way
  partition around the middle element.
- `Traversal`: `bfs` as a FIFO loop with a visited set. It comes with
  reachability, a characterisation of breadth-first order with
  adjacency-list tie-breaking, and a proof that this characterisation
  determines the traversal uniquely.
- `Json`: decoded JSON values as the Python handlers see them, with
  Python's truthiness and `in` operator.
- `Api`: the three handlers and the health check. Each handler ends in one
  `Outcome`:
  - a reply (HTTP status, body and the one log entry written);
  - an exception escaping before anything is logged;
  - an accepted request whose fields have a shape outside the model.

The time the algorithm took is a parameter of each handler (`elapsedMs`).

A behaviour of `bfs` worth knowing, which the model keeps: a start node that
only occurs inside an adjacency list, and is not a key of the graph, yields
an empty traversal. Such nodes are still traversed, with no neighbours, when
reached from elsewhere (`graph.get(current_node, [])`).

## Model

| member | source | states |
|---|---|---|
| Searching.BinarySearch | algorithms.py:13-31 | The result is -1 or an index holding the target. On a sorted array it is -1 exactly when the target does not occur. Every midpoint lies within the array, and `right - left` decreases, so the loop ends. |
| Sorting.Less | algorithms.py:48 | An element is in `left` exactly when it is in the input and below the pivot. |
| Sorting.Same | algorithms.py:49 | An element is in `middle` exactly when it is in the input and equal to the pivot. |
| Sorting.Greater | algorithms.py:50 | An element is in `right` exactly when it is in the input and above the pivot. |
| Sorting.PartitionIsSplit | algorithms.py:47-50 | The three partitions together hold every input element, with the same number of copies of each. |
| Sorting.PartitionShrinks | algorithms.py:47-50 | When the pivot comes from the input, `left` and `right` are each strictly shorter than the input. This is what makes the recursion terminate. |
| Sorting.JoinSorted | algorithms.py:52 | Sorted parts below, at and above the pivot concatenate to a sorted sequence. |
| Sorting.SortedParts | algorithms.py:47-52 | Sorted permutations of `left` and `right`, joined around `middle`, are in non-decreasing order. |
| Sorting.QuickSort | algorithms.py:34-52 | The output is non-decreasing and has the input's multiset of elements, duplicates included. The recursion terminates on length. |
| Sorting.QuickSortIsTheSortedPermutation | algorithms.py:34-52 | Any sorted permutation of the input equals the output of `quick_sort`. |
| Sorting.QuickSortKeepsSorted | algorithms.py:44-45 | A sorted input comes back unchanged. This covers inputs of length at most one, which the source returns as they are. |
| Sorting.QuickSortIdempotent | algorithms.py:34-52 | Sorting twice gives the same result as sorting once. |
| Ordering.SameHead | app.py:63 | Two sorted sequences with the same non-empty multiset start with the same element. |
| Ordering.SortedPermutationUnique | app.py:63 | Two sorted sequences with the same multiset are equal. So any `sorted` that returns a sorted permutation gives exactly the array `quick_sort` gives. |
| Traversal.ClosedHoldsReachable | algorithms.py:78-88 | A sequence that contains `from` and all neighbours of its own elements contains every node reachable from `from`. |
| Traversal.ReachableStep | algorithms.py:85 | Reachability extends by one adjacency-list edge. |
| Traversal.DiscoveredAreReachable | algorithms.py:85-88 | In a traversal where each later node was entered from an earlier one, every node is reachable from the first. |
| Traversal.ScanNew | algorithms.py:86-88 | Enqueueing an unvisited neighbour and marking it visited keeps the breadth-first invariant. |
| Traversal.ScanOld | algorithms.py:86 | Skipping a neighbour already visited keeps the breadth-first invariant. |
| Traversal.ScanDone | algorithms.py:85 | Once the whole adjacency list of the dequeued node is scanned, the invariant moves on to the next node. |
| Traversal.VisitNeighbours | algorithms.py:85-88 | The inner loop keeps the breadth-first invariant across the whole adjacency list of the dequeued node, and it never unmarks a node. |
| Traversal.VisitedInGraph | algorithms.py:71-88 | Every node the traversal marks visited is the start key or occurs in some adjacency list. |
| Traversal.Dequeue | algorithms.py:78-88 | One outer iteration keeps the invariant. Visited nodes stay among the nodes the graph mentions. The step either visits a new node or shortens the queue, which gives termination. |
| Traversal.Finished | algorithms.py:78-90 | Once the queue is empty, the emitted nodes meet the whole breadth-first characterisation. |
| Traversal.BfsResult | algorithms.py:78-90 | When the queue is empty, the output is closed under edges and holds exactly the nodes reachable from the start. |
| Traversal.Bfs | algorithms.py:55-90 | The result meets `IsBfsOrder`. It is `[]` when the start is not a key. Otherwise it starts at the start node and has no duplicates. Every later node is a neighbour of an earlier one. The nodes are in breadth-first order with adjacency-list tie-breaking. Exactly the reachable nodes appear, and nodes without an entry count as having no neighbours. |
| Traversal.FirstEdge | algorithms.py:85-88 | Gives the lexicographically first edge out of a prefix of the traversal that leads to a given node. This is the edge through which `bfs` enqueues that node. |
| Traversal.FirstEdgeNoLater | algorithms.py:78-88 | In two breadth-first orders that agree up to a position, the first edge entering the next node of one comes no later than any edge entering the next node of the other. |
| Traversal.BfsOrderStep | algorithms.py:78-88 | Two breadth-first orders over the same nodes that agree before a position also agree at it. |
| Traversal.SameOrders | algorithms.py:78-88 | Two duplicate-free traversals over the same nodes, each starting at the start and each in breadth-first order, are equal. |
| Traversal.SameLength | algorithms.py:78-88 | Two duplicate-free traversals over the same nodes have the same length. |
| Traversal.BfsOrderUnique | algorithms.py:55-90 | The breadth-first characterisation that `bfs` meets admits only one sequence. So it fixes the traversal exactly. |
| Json.SubstringAt | app.py:55 | The recursive substring test holds exactly when the key occurs at some index of the string. |
| Json.Contains | app.py:55 | Python `in` on the request body tests the keys of a dict and the elements of a list. On a string it tests whether the key occurs at some index. On None, booleans and numbers it raises. |
| Json.IntsOf | app.py:63 | Reads an array of integers. It succeeds exactly on arrays whose every element is an integer, and the array re-encodes to the same JSON value. |
| Json.StrsOf | app.py:131 | Reads an array of strings. It succeeds exactly on arrays of strings, and the array re-encodes to the same JSON value. |
| Json.IntArrayRoundTrip | app.py:71 | Decoding an encoded integer array gives back the same integers. |
| Json.StrArrayRoundTrip | app.py:131 | Decoding an encoded string array gives back the same strings. |
| Api.CheckEach | app.py:55 | Acceptance means the body is a dict holding every required field. A dict is rejected exactly when some required field is missing. A string or list is rejected exactly when some required name is not a substring or element of it, and raises otherwise. A raise happens only on a body that is not a dict. |
| Api.Validate | app.py:55 | A falsy body, or a dict missing a required field, is rejected. A non-empty dict holding every field is accepted. A truthy number or `True` raises. A non-empty string or list is rejected exactly when some required name is not a substring or element of it; otherwise the handler's indexing raises. |
| Api.BuiltinSorted | app.py:63 | `sorted(data['array'])` gives the sorted permutation of the array. |
| Api.SearchAnswerFromResult | app.py:73-74 | On a sorted permutation of the input, `found = result != -1` says exactly whether the target occurs in the original array. `position` is then an index of the target in the sorted array, and otherwise null. |
| Api.SearchSuccess | app.py:63-80 | The success reply echoes `array` and `target` and sends the sorted permutation. `found` is true exactly when the target occurs. `position` is an index of the target in the sorted array, or null. The reply is logged with the elapsed time. |
| Api.BinarySearchApi | app.py:52-80 | A request that fails validation gets the 400 reply: status `error`, the endpoint's message, logged with no execution time. No search runs then. The request raises exactly when validation raises. An accepted request with an integer array and an integer target gets the success reply; any other accepted request is `Unmodelled`. |
| Api.QuickSortApi | app.py:84-108 | A request that fails validation gets the 400 reply, logged with no execution time. Below Python's recursion limit, the request raises exactly when validation raises. An accepted request with an integer array gets a reply that echoes the input array unchanged and sends its sorted permutation, logged with the elapsed time; any other accepted request is `Unmodelled`. |
| Api.GraphOf | app.py:124 | Reads a graph. It succeeds exactly on objects whose every value is an array of strings, and it keeps every key and adjacency list. |
| Api.BfsApi | app.py:112-137 | A request that fails validation gets the 400 reply, logged with no execution time. The request raises exactly when validation raises. An accepted request with a graph of string lists and a string start node gets a reply that echoes both, and `traversal_path` is the unique breadth-first order from the start node; any other accepted request is `Unmodelled`. |
| Api.Route | app.py:50-139 | Only `GET /` reaches the health check. A POST is routed exactly when its path is one of the three algorithm paths or its `/api` alias. |
| Api.RouteAliases | app.py:50-111 | The `/api` alias of each algorithm path reaches the same handler as the bare path. The three bare paths reach the binary-search, quick-sort and BFS handlers. |
| Api.HealthCheck | app.py:139-152 | The reply is always `online` with the fixed message. Its endpoint list names each path once, and names exactly the paths that accept a POST: the three bare algorithm paths in order, then their `/api` aliases in the same order. |

## Left out

- `logger.py` is not part of this model. It only configures rotating file handlers and writes dictionaries to files.
- File output and log formatting (`app.py:12-25`, `41-48`, `156-161`) are left out because they are I/O. The transaction-log entry is returned as data (`LogEntry`). Its timestamp is dropped, since it comes from the wall clock.
- The clock (`datetime.now()` around each algorithm call) is not modelled. The elapsed milliseconds are a parameter of each handler, and the model states only that this value is echoed and logged.
- Flask itself is left out: `request.get_json()`, `jsonify`, `app.run`, Flask's own 400 reply to a body that is not valid JSON, and the `HEAD` and `OPTIONS` methods Flask adds to every route (so `HEAD /` also reaches `health_check`). The body is taken to be already decoded, and a missing body is `Null`.
- Only the route table is modelled for `/api/` aliases. Each alias reaches the same handler as its bare path, so nothing else separates them.
- The order of keys in a JSON object is left out, because objects are maps.
- Python floats become `real`. Their rounding is not modelled.
- Accepted requests whose fields have other shapes give `Unmodelled`: an `array` that is not a list of integers, a `target` that is not an integer, a `graph` that is not an object of string lists, and a `start_node` that is not a string. Python often still replies with success to these. `{"array":[1,3],"target":3.0}` finds the target. `{"array":[],"target":"x"}` reports it absent, since the loop never runs. `{"graph":[],"start_node":"A"}` gives an empty path. `{"array":"cba","target":"b"}` sorts and searches the string's characters. Other such inputs may also succeed, or raise `TypeError`, `AttributeError` or `KeyError`. The model states nothing about any of these.
- `sorted()` is not modelled by its own algorithm. `Api.BuiltinSorted` computes it with `Sorting.QuickSort`, and `Ordering.SortedPermutationUnique` shows that any sorted permutation is the same sequence.
- Api.QuickSortApi and Sorting.QuickSort do not model Python's recursion limit (about 1000 frames). `quick_sort` recurses once per partition level. An integer array whose partition depth reaches the limit makes Python raise `RecursionError`: Flask answers 500 and no log entry is written. The model still gives the success reply for such an array. One such array puts its maximum at the middle index at every level.
- Concurrent requests and concurrent appends to the log files are left out, because they concern concurrency and I/O.
