// Path resolution: bl_file_iterate_path of boot-loader/core/fs/file.c. The callbacks it makes may
// change the memory behind the copy of the path, which the tokeniser comes to read.

module PathResolution {
  import opened PathTokens
  import opened Wrappers

  // ---------------------------------------------------------------- the walk as a fold

  /** What the file system knows about a file: compared, never looked into. */
  datatype File = File(id: nat)

  datatype Result<+T> = Ok(value: T) | Err(status: nat)

  /** The callback: looks a name up in a directory, asking for a directory or for anything. */
  type Lookup = (string, bool, File) -> Result<File>

  const PREVIOUS := ".."
  const CURRENT := "."

  /** One component: ".." goes up but not above the root, "." stays, a name goes down. */
  function Step(lookup: Lookup, stack: seq<File>, name: string, directory: bool): (r: Result<seq<File>>)
    requires stack != []
    ensures r.Ok? ==> r.value != [] && r.value[0] == stack[0]
  {
    if name == PREVIOUS then Ok(if |stack| > 1 then stack[..|stack| - 1] else stack)
    else if name == CURRENT then Ok(stack)
    else
      match lookup(name, directory, stack[|stack| - 1])
      case Ok(f) => Ok(stack + [f])
      case Err(e) => Err(e)
  }

  /** All components; all but the last, and the last before a trailing delimiter, must be
      directories. */
  function Resolve(lookup: Lookup, stack: seq<File>, names: seq<string>, trailing: bool): (r: Result<seq<File>>)
    requires stack != []
    ensures r.Ok? ==> r.value != [] && r.value[0] == stack[0]
    decreases |names|
  {
    if names == [] then Ok(stack)
    else
      match Step(lookup, stack, names[0], |names| > 1 || trailing)
      case Err(e) => Err(e)
      case Ok(s) => Resolve(lookup, s, names[1..], trailing)
  }

  /** What each component does, wherever it stands and whatever follows: "." does nothing, ".." goes up but
      not above the root, and any other name is looked up in the directory on top, as a directory unless
      it ends the path. */
  lemma {:induction false} ResolveMeaning(lookup: Lookup, stack: seq<File>, name: string, rest: seq<string>,
        trailing: bool)
    requires stack != []
    ensures Resolve(lookup, stack, [], trailing) == Ok(stack)
    ensures Resolve(lookup, stack, ["."] + rest, trailing) == Resolve(lookup, stack, rest, trailing)
    ensures Resolve(lookup, stack, [".."] + rest, trailing) ==
      Resolve(lookup, if |stack| > 1 then stack[..|stack| - 1] else stack, rest, trailing)
    ensures name != "." && name != ".." ==>
      Resolve(lookup, stack, [name] + rest, trailing) ==
      match lookup(name, rest != [] || trailing, stack[|stack| - 1])
      case Err(e) => Err(e)
      case Ok(f) => Resolve(lookup, stack + [f], rest, trailing)
  {
    assert (["."] + rest)[1..] == rest;
    assert ([".."] + rest)[1..] == rest;
    assert ([name] + rest)[1..] == rest;
  }

  /** Resolving a path that continues is resolving its beginning as a directory and the rest
      from there. */
  lemma {:induction false} ResolveInParts(lookup: Lookup, stack: seq<File>, a: seq<string>, b: seq<string>,
        trailing: bool)
    requires stack != []
    ensures Resolve(lookup, stack, a + b, trailing) ==
      match Resolve(lookup, stack, a, b != [] || trailing)
      case Err(e) => Err(e)
      case Ok(s) => Resolve(lookup, s, b, trailing)
    decreases |a|
  {
    if a == [] {
      assert a + b == b;
    } else {
      assert (a + b)[0] == a[0] && (a + b)[1..] == a[1..] + b;
      match Step(lookup, stack, a[0], |a + b| > 1 || trailing)
      case Err(_) =>
      case Ok(s) => ResolveInParts(lookup, s, a[1..], b, trailing);
    }
  }

  /** Going down into a directory and up again leads nowhere; up from the root stays there. */
  lemma {:induction false} UpUndoesDown(lookup: Lookup, stack: seq<File>, name: string, rest: seq<string>,
        trailing: bool)
    requires stack != [] && name != CURRENT
    ensures name != PREVIOUS && lookup(name, true, stack[|stack| - 1]).Ok? ==>
      Resolve(lookup, stack, [name, PREVIOUS] + rest, trailing) == Resolve(lookup, stack, rest, trailing)
    ensures |stack| == 1 ==>
      Resolve(lookup, stack, [PREVIOUS] + rest, trailing) == Resolve(lookup, stack, rest, trailing)
  {
    assert ([PREVIOUS] + rest)[1..] == rest;
    assert ([name, PREVIOUS] + rest)[1..] == [PREVIOUS] + rest;
    match lookup(name, true, stack[|stack| - 1])
    case Err(_) =>
    case Ok(f) => assert (stack + [f])[..|stack|] == stack;
  }

  // ---------------------------------------------------------------- the walk over a copy in memory

  /** Whether a component gives others the processor: the callback for a name, the close operation
      and the heap for a node that is given back. */
  predicate Disturbs(stack: seq<File>, name: string) {
    name != CURRENT && (name == PREVIOUS ==> |stack| > 1)
  }

  /** The memory behind the copy: before bl_strndup stores its NUL there, and each time after others
      had the processor. */
  datatype Behind = Behind(first: string, later: seq<string>)

  predicate SameLength(behind: Behind) {
    && behind.first != []
    && forall n :: 0 <= n < |behind.later| ==> |behind.later[n]| == |behind.first|
  }

  /** What it holds after others had the processor n times. */
  function Tail(behind: Behind, n: nat): (r: string)
    requires SameLength(behind)
    ensures |r| == |behind.first|
  {
    if n == 0 || behind.later == [] then behind.first[0 := NUL] else behind.later[Min(n, |behind.later|) - 1]
  }

  /** The memory from the copy on, after others had the processor for the n-th time. */
  function Disturbed(b: string, path: string, behind: Behind, n: nat): (r: string)
    requires SameLength(behind) && |b| == |path| + 1 + |behind.first|
    ensures |r| == |b|
  {
    b[..|path| + 1] + Tail(behind, n)
  }

  /** The loop of bl_file_iterate_path with a token in hand, the cursor at c, and others having had
      the processor n times: the next token is fetched before the one in hand is resolved. */
  function WalkFrom(lookup: Lookup, behind: Behind, path: string, b: string, c: nat, filename: Option<nat>,
                    stack: seq<File>, n: nat): (r: Result<seq<File>>)
    requires SameLength(behind) && |b| == |path| + 1 + |behind.first| && c <= |b| + 1 && stack != []
    decreases |b| + 1 - c, if filename == None then 0 else 1
  {
    if filename == None then Ok(stack)
    else
      var cut := NextToken(b, c);
      var name := StringAt(cut.buf, filename.value);
      match Step(lookup, stack, name, cut.token != None || Trailing(path))
      case Err(e) => Err(e)
      case Ok(s) =>
        if Disturbs(stack, name) then
          WalkFrom(lookup, behind, path, Disturbed(cut.buf, path, behind, n + 1), cut.cursor, cut.token, s, n + 1)
        else WalkFrom(lookup, behind, path, cut.buf, cut.cursor, cut.token, s, n)
  }

  /** The whole walk, from the copy bl_strndup makes. */
  function Walked(lookup: Lookup, behind: Behind, path: string, root: File): (r: Result<seq<File>>)
    requires SameLength(behind)
  {
    var cut := NextToken(Duplicate(path, |path|, behind.first), 0);
    WalkFrom(lookup, behind, path, cut.buf, cut.cursor, cut.token, [root], 0)
  }

  // ---------------------------------------------------------------- tree nodes

  class FileData {
    const file: File

    constructor (file: File)
      ensures this.file == file
    {
      this.file := file;
    }
  }

  class Node {
    const fdata: FileData
    var prev: Node?

    constructor (fdata: FileData)
      ensures this.fdata == fdata && prev == null
    {
      this.fdata, prev := fdata, null;
    }
  }

  /** The heap and the file system's close operation, which remember what they were given. */
  class Resources {
    ghost var freed: seq<Node>
    ghost var closed: seq<FileData>

    method Free(node: Node)
      modifies this`freed
      ensures freed == old(freed) + [node]
    {
      freed := freed + [node];
    }

    method Close(fdata: FileData)
      modifies this`closed
      ensures closed == old(closed) + [fdata]
    {
      closed := closed + [fdata];
    }
  }

  method Callback(lookup: Lookup, name: string, directory: bool, dir: FileData) returns (r: Result<Node>)
    ensures match lookup(name, directory, dir.file)
      case Err(e) => r == Err(e)
      case Ok(f) => r.Ok? && fresh(r.value) && fresh(r.value.fdata) && r.value.fdata.file == f
  {
    match lookup(name, directory, dir.file) {
      case Err(e) =>
        r := Err(e);
      case Ok(f) =>
        var fdata := new FileData(f);
        var node := new Node(fdata);
        r := Ok(node);
    }
  }

  /** The nodes from the root to the top, linked downwards. */
  ghost predicate IsStack(stack: seq<Node>, top: Node)
    reads stack
  {
    && stack != [] && top == stack[|stack| - 1] && stack[0].prev == null
    && (forall i :: 0 < i < |stack| ==> stack[i].prev == stack[i - 1])
  }

  ghost predicate Holds(stack: seq<Node>, files: seq<File>) {
    |stack| == |files| && forall i :: 0 <= i < |stack| ==> stack[i].fdata.file == files[i]
  }

  ghost function DataOf(nodes: seq<Node>): seq<FileData> {
    if nodes == [] then [] else DataOf(nodes[..|nodes| - 1]) + [nodes[|nodes| - 1].fdata]
  }

  lemma {:induction false} DataOfPush(nodes: seq<Node>, n: Node)
    ensures DataOf(nodes + [n]) == DataOf(nodes) + [n.fdata]
  {
    assert (nodes + [n])[..|nodes|] == nodes;
  }

  ghost predicate Share(nodes: seq<Node>, i: nat, j: nat)
    requires i < |nodes| && j < |nodes|
  {
    nodes[i].fdata == nodes[j].fdata
  }

  /** No two of the nodes share their file data; in particular no node is there twice. */
  ghost predicate Distinct(nodes: seq<Node>) {
    forall i, j :: 0 <= i < j < |nodes| ==> !Share(nodes, i, j)
  }

  ghost function Reversed(s: seq<Node>): (r: seq<Node>)
    ensures |r| == |s| && forall i :: 0 <= i < |s| ==> r[i] == s[|s| - 1 - i]
  {
    if s == [] then [] else [s[|s| - 1]] + Reversed(s[..|s| - 1])
  }

  // ---------------------------------------------------------------- clean-up

  lemma {:induction false} ReversedStep(s: seq<Node>, done: seq<Node>, n: nat, all: seq<Node>)
    requires 0 < n <= |s| && done + Reversed(s[..n]) == all
    ensures (done + [s[n - 1]]) + Reversed(s[..n - 1]) == all
  {
    assert s[..n][..n - 1] == s[..n - 1];
    Associative(done, [s[n - 1]], Reversed(s[..n - 1]));
  }

  /** The order in which the nodes of a stack are freed at the end. */
  ghost function FreeOrder(stack: seq<Node>): seq<Node>
    requires stack != []
  {
    Reversed(stack[..|stack| - 1]) + [stack[|stack| - 1]]
  }

  /** Closes and frees a node and everything below it. */
  method GiveBackFrom(res: Resources, first: Node?, ghost stack: seq<Node>)
    requires if stack == [] then first == null else first != null && IsStack(stack, first)
    modifies res
    ensures res.freed == old(res.freed) + Reversed(stack)
    ensures res.closed == old(res.closed) + DataOf(Reversed(stack))
  {
    var node := first;
    ghost var n := |stack|;
    ghost var done: seq<Node> := [];
    assert stack[..n] == stack;
    while node != null
      invariant 0 <= n <= |stack| && (if n == 0 then node == null else node == stack[n - 1])
      invariant done + Reversed(stack[..n]) == Reversed(stack)
      invariant res.freed == old(res.freed) + done && res.closed == old(res.closed) + DataOf(done)
      decreases n
    {
      res.Close(node.fdata);
      res.Free(node);
      DataOfPush(done, node);
      ReversedStep(stack, done, n, Reversed(stack));
      done := done + [node];
      n := n - 1;
      node := node.prev;
    }
    assert done == Reversed(stack);
  }

  /** The exit path: everything below the top is closed and freed, the top is only freed. */
  method CleanUp(res: Resources, top: Node, ghost stack: seq<Node>)
    requires IsStack(stack, top)
    modifies res
    ensures res.freed == old(res.freed) + FreeOrder(stack)
    ensures res.closed == old(res.closed) + DataOf(Reversed(stack[..|stack| - 1]))
  {
    assert |stack| > 1 ==> stack[|stack| - 1].prev == stack[|stack| - 2];
    GiveBackFrom(res, top.prev, stack[..|stack| - 1]);
    res.Free(top);
  }

  /** Where entry i of the nodes goes: the stack is turned round but for its top. */
  ghost function Place(below: nat, depth: nat, i: nat): (p: nat)
    requires depth > 0 && i < below + depth
    ensures p < below + depth
  {
    if i < below || i == below + depth - 1 then i else below + (depth - 2 - (i - below))
  }

  lemma {:induction false} OrderAt(popped: seq<Node>, stack: seq<Node>, i: nat)
    requires stack != [] && i < |popped| + |stack|
    ensures (popped + FreeOrder(stack))[i] == (popped + stack)[Place(|popped|, |stack|, i)]
    ensures (popped + stack)[i] == (popped + FreeOrder(stack))[Place(|popped|, |stack|, i)]
  {
  }

  lemma {:induction false} OrderDistinct(order: seq<Node>, all: seq<Node>, popped: seq<Node>, stack: seq<Node>,
        i: nat, j: nat)
    requires stack != [] && Distinct(all) && all == popped + stack && order == popped + FreeOrder(stack)
    requires i < j < |order|
    ensures !Share(order, i, j)
  {
    OrderAt(popped, stack, i);
    OrderAt(popped, stack, j);
    var a, b := Place(|popped|, |stack|, i), Place(|popped|, |stack|, j);
    assert if a < b then !Share(all, a, b) else !Share(all, b, a);
  }

  /** The nodes freed on the way and those freed at the end are all of them, none twice. */
  lemma {:induction false} OrderIsComplete(order: seq<Node>, all: seq<Node>, popped: seq<Node>, stack: seq<Node>)
    requires stack != [] && Distinct(all) && all == popped + stack && order == popped + FreeOrder(stack)
    ensures Distinct(order)
    ensures forall n :: n in order <==> n in all
  {
    forall i, j | 0 <= i < j < |order|
      ensures !Share(order, i, j)
    {
      OrderDistinct(order, all, popped, stack, i, j);
    }
    forall i | 0 <= i < |order|
      ensures order[i] in all && all[i] in order
    {
      OrderAt(popped, stack, i);
    }
  }

  lemma {:induction false} DistinctPush(nodes: seq<Node>, n: Node)
    requires Distinct(nodes) && forall m :: m in nodes ==> m.fdata != n.fdata
    ensures Distinct(nodes + [n])
  {
    forall i, j | 0 <= i < j < |nodes + [n]|
      ensures !Share(nodes + [n], i, j)
    {
      if j < |nodes| {
        assert !Share(nodes, i, j);
      }
    }
  }

  /** The nodes of a walk: those on the stack and those given back on the way. */
  datatype Walk = Walk(stack: seq<Node>, popped: seq<Node>, files: seq<File>)

  ghost predicate Walking(w: Walk, root: Node, top: Node)
    reads w.stack
  {
    && IsStack(w.stack, top) && w.stack[0] == root && Holds(w.stack, w.files)
    && Distinct(w.popped + w.stack)
  }

  /** Moving the last element forward keeps what is there and that it is there once. */
  lemma {:induction false} PopMoves(was: seq<Node>, all: seq<Node>, n: nat, i: nat)
    requires n < |was| && all == was[..n] + [was[|was| - 1]] + was[n..|was| - 1] && i < |was|
    ensures |all| == |was| && all[i] == was[if i < n then i else if i == n then |was| - 1 else i - 1]
    ensures was[i] == all[if i < n then i else if i == |was| - 1 then n else i + 1]
  {
  }

  lemma {:induction false} PopDistinct(was: seq<Node>, all: seq<Node>, n: nat, i: nat, j: nat)
    requires n < |was| && all == was[..n] + [was[|was| - 1]] + was[n..|was| - 1] && Distinct(was)
    requires i < j < |was|
    ensures |all| == |was| && !Share(all, i, j)
  {
    PopMoves(was, all, n, i);
    PopMoves(was, all, n, j);
    var a := if i < n then i else if i == n then |was| - 1 else i - 1;
    var b := if j < n then j else if j == n then |was| - 1 else j - 1;
    assert if a < b then !Share(was, a, b) else !Share(was, b, a);
  }

  lemma {:induction false} PopKeeps(was: seq<Node>, all: seq<Node>, n: nat)
    requires n < |was| && all == was[..n] + [was[|was| - 1]] + was[n..|was| - 1] && Distinct(was)
    ensures Distinct(all) && forall m :: m in all <==> m in was
  {
    forall i | 0 <= i < |was|
      ensures all[i] in was && was[i] in all
    {
      PopMoves(was, all, n, i);
    }
    forall i, j | 0 <= i < j < |all|
      ensures !Share(all, i, j)
    {
      PopDistinct(was, all, n, i, j);
    }
  }

  lemma {:induction false} PopParts(popped: seq<Node>, stack: seq<Node>)
    requires stack != []
    ensures var was, n := popped + stack, |popped|;
      was[..n] == popped && was[|was| - 1] == stack[|stack| - 1] && was[n..|was| - 1] == stack[..|stack| - 1]
  {
  }

  lemma {:induction false} TopIsRoot(w: Walk, root: Node, top: Node)
    requires Walking(w, root, top) && top == root
    ensures |w.stack| == 1
  {
    var all := w.popped + w.stack;
    assert |w.stack| > 1 ==> !Share(all, |w.popped|, |all| - 1);
  }

  /** The walk after its top is given back. */
  ghost function Popped(w: Walk): Walk
    requires w.stack != [] && w.files != []
  {
    Walk(w.stack[..|w.stack| - 1], w.popped + [w.stack[|w.stack| - 1]], w.files[..|w.files| - 1])
  }

  lemma {:induction false} PoppedStack(w: Walk, root: Node, top: Node)
    requires Walking(w, root, top) && top != root
    ensures |w.stack| > 1 && top.prev == w.stack[|w.stack| - 2]
    ensures var w' := Popped(w);
      IsStack(w'.stack, w.stack[|w.stack| - 2]) && w'.stack[0] == root && Holds(w'.stack, w'.files)
  {
    assert w.stack[|w.stack| - 1].prev == w.stack[|w.stack| - 2];
  }

  lemma {:induction false} PoppedNodes(w: Walk, top: Node)
    requires w.stack != [] && w.files != [] && top == w.stack[|w.stack| - 1] && Distinct(w.popped + w.stack)
    ensures Distinct(Popped(w).popped + Popped(w).stack)
    ensures forall n :: n in Popped(w).popped + Popped(w).stack <==> n in w.popped + w.stack
    ensures Popped(w).popped[|w.popped|..] == [top] && DataOf([top]) == [top.fdata]
  {
    PopParts(w.popped, w.stack);
    PopKeeps(w.popped + w.stack, w.popped + [top] + w.stack[..|w.stack| - 1], |w.popped|);
    DataOfPush([], top);
    assert [] + [top] == [top];
  }

  /** Others had the processor: the memory behind the copy holds something else now. */
  method Disturb(buf: array<char>, path: string, behind: Behind, n: nat)
    requires SameLength(behind) && buf.Length == |path| + 1 + |behind.first|
    modifies buf
    ensures buf[..] == Disturbed(old(buf[..]), path, behind, n)
  {
    var tail := Tail(behind, n);
    for i := 0 to |tail|
      invariant forall k :: 0 <= k < |path| + 1 ==> buf[k] == old(buf[..])[k]
      invariant forall k :: 0 <= k < i ==> buf[|path| + 1 + k] == tail[k]
    {
      buf[|path| + 1 + i] := tail[i];
    }
    assert buf[..] == old(buf[..])[..|path| + 1] + tail;
  }

  /** ".." */
  method GoUp(res: Resources, root: Node, top: Node, ghost w: Walk) returns (top': Node, ghost w': Walk)
    requires Walking(w, root, top)
    modifies res
    ensures Walking(w', root, top') && w'.files == (if |w.files| > 1 then w.files[..|w.files| - 1] else w.files)
    ensures forall n :: n in w'.popped + w'.stack <==> n in w.popped + w.stack
    ensures w.popped <= w'.popped && res.freed == old(res.freed) + w'.popped[|w.popped|..]
    ensures res.closed == old(res.closed) + DataOf(w'.popped[|w.popped|..])
    ensures top != root <==> |w.files| > 1
  {
    top', w' := top, w;
    if top != root {
      PoppedStack(w, root, top);
      PoppedNodes(w, top);
      w' := Popped(w);
      top' := top.prev;
      res.Close(top.fdata);
      res.Free(top);
    } else {
      TopIsRoot(w, root, top);
    }
  }

  /** A name: the callback's node goes on top. */
  method GoDown(lookup: Lookup, name: string, directory: bool, root: Node, top: Node, ghost w: Walk)
    returns (r: Result<Node>, ghost w': Walk)
    requires Walking(w, root, top)
    ensures match lookup(name, directory, top.fdata.file)
      case Err(e) => r == Err(e) && w' == w
      case Ok(f) =>
        && r.Ok? && fresh(r.value) && Walking(w', root, r.value)
        && w' == Walk(w.stack + [r.value], w.popped, w.files + [f])
  {
    r := Callback(lookup, name, directory, top.fdata);
    w' := w;
    if r.Ok? {
      var node := r.value;
      node.prev := top;
      w' := Walk(w.stack + [node], w.popped, w.files + [node.fdata.file]);
      DistinctPush(w.popped + w.stack, node);
      assert w.popped + (w.stack + [node]) == w.popped + w.stack + [node];
    }
  }

  /** One round of the loop: the stack of files takes one step of the fold, and if others had the
      processor the memory behind the copy is what they left. */
  method Component(res: Resources, lookup: Lookup, buf: array<char>, path: string, behind: Behind, n: nat,
                   name: string, directory: bool, root: Node, top: Node, ghost w: Walk)
    returns (r: Result<Node>, n': nat, ghost w': Walk)
    requires Walking(w, root, top) && SameLength(behind) && buf.Length == |path| + 1 + |behind.first|
    modifies res, buf
    ensures match Step(lookup, w.files, name, directory)
      case Err(e) => r == Err(e) && w' == w
      case Ok(files) => r.Ok? && Walking(w', root, r.value) && w'.files == files
    ensures forall m :: m in w'.popped + w'.stack ==> m in w.popped + w.stack || fresh(m)
    ensures forall m :: m in w.popped + w.stack ==> m in w'.popped + w'.stack
    ensures w.popped <= w'.popped && res.freed == old(res.freed) + w'.popped[|w.popped|..]
    ensures res.closed == old(res.closed) + DataOf(w'.popped[|w.popped|..])
    ensures Disturbs(w.files, name) <==> name != "." && (name == ".." ==> |w.files| > 1)
    ensures n' == if Disturbs(w.files, name) then n + 1 else n
    ensures buf[..] == if Disturbs(w.files, name) then Disturbed(old(buf[..]), path, behind, n + 1) else old(buf[..])
  {
    n' := n;
    if name == PREVIOUS {
      var t: Node;
      t, w' := GoUp(res, root, top, w);
      r := Ok(t);
      if top != root {
        n' := n + 1;
        Disturb(buf, path, behind, n');
      }
    } else {
      r, w' := Ok(top), w;
      if name != CURRENT {
        r, w' := GoDown(lookup, name, directory, root, top, w);
        n' := n + 1;
        Disturb(buf, path, behind, n');
      }
    }
  }

  lemma {:induction false} TakeDrop<T>(a: seq<T>, b: seq<T>)
    requires a <= b
    ensures a + b[|a|..] == b
  {
  }

  lemma {:induction false} DataOfAppend(a: seq<Node>, b: seq<Node>)
    ensures DataOf(a + b) == DataOf(a) + DataOf(b)
    decreases |b|
  {
    if b == [] {
      assert a + b == a;
    } else {
      var front, last := b[..|b| - 1], b[|b| - 1];
      DataOfAppend(a, front);
      TakeDrop(front, b);
      Associative(a, front, [last]);
      DataOfPush(a + front, last);
      assert a + b == a + front + [last];
    }
  }

  /** A log that has grown by some nodes, and the other by their file data. */
  ghost predicate Logged(freed: seq<Node>, closed: seq<FileData>, freed0: seq<Node>, closed0: seq<FileData>,
                         nodes: seq<Node>)
  {
    freed == freed0 + nodes && closed == closed0 + DataOf(nodes)
  }

  lemma {:induction false} LoggedMore(freed: seq<Node>, closed: seq<FileData>, freed0: seq<Node>,
        closed0: seq<FileData>, a: seq<Node>, b: seq<Node>)
    requires a <= b && Logged(freed, closed, freed0, closed0, a)
    ensures Logged(freed + b[|a|..], closed + DataOf(b[|a|..]), freed0, closed0, b)
  {
    DataOfAppend(a, b[|a|..]);
    TakeDrop(a, b);
    Associative(freed0, a, b[|a|..]);
    Associative(closed0, DataOf(a), DataOf(b[|a|..]));
  }

  /** Everything has been given back: each node once, and the data of all but the last. */
  ghost predicate GivenBack(freed: seq<Node>, closed: seq<FileData>, freed0: seq<Node>, closed0: seq<FileData>,
                            order: seq<Node>)
  {
    && order != [] && Distinct(order)
    && freed == freed0 + order && closed == closed0 + DataOf(order[..|order| - 1])
  }

  lemma {:induction false} AllGivenBack(freed0: seq<Node>, closed0: seq<FileData>, popped: seq<Node>,
        below: seq<Node>, more: seq<Node>, order: seq<Node>)
    requires order == popped + more && more != [] && Distinct(order) && order[..|order| - 1] == popped + below
    ensures GivenBack(freed0 + popped + more, closed0 + DataOf(popped) + DataOf(below), freed0, closed0, order)
  {
    Associative(freed0, popped, more);
    Associative(closed0, DataOf(popped), DataOf(below));
    DataOfAppend(popped, below);
  }

  lemma {:induction false} AllButLast<T>(a: seq<T>, b: seq<T>, x: T)
    ensures var s := a + (b + [x]); s[..|s| - 1] == a + b
  {
  }

  /** The exit path seen from the whole walk. */
  method Finish(res: Resources, root: Node, top: Node, ghost w: Walk, ghost freed0: seq<Node>,
                ghost closed0: seq<FileData>) returns (ghost order: seq<Node>)
    requires Walking(w, root, top) && Logged(res.freed, res.closed, freed0, closed0, w.popped)
    modifies res
    ensures GivenBack(res.freed, res.closed, freed0, closed0, order) && order[|order| - 1] == top
    ensures forall n :: n in order <==> n in w.popped + w.stack
  {
    order := w.popped + FreeOrder(w.stack);
    OrderIsComplete(order, w.popped + w.stack, w.popped, w.stack);
    ghost var below := Reversed(w.stack[..|w.stack| - 1]);
    AllButLast(w.popped, below, top);
    AllGivenBack(freed0, closed0, w.popped, below, FreeOrder(w.stack), order);
    CleanUp(res, top, w.stack);
  }

  /** One round of the loop: fetches the token behind the one in hand, which decides what the callback
      is asked for, and resolves the one in hand. */
  method Round(res: Resources, lookup: Lookup, tokeniser: Tokeniser, path: string, behind: Behind,
               filename: nat, n: nat, root: Node, top: Node, ghost w: Walk, ghost freed0: seq<Node>,
               ghost closed0: seq<FileData>)
    returns (r: Result<Node>, next: Option<nat>, n': nat, ghost w': Walk)
    requires SameLength(behind) && tokeniser.buf.Length == |path| + 1 + |behind.first|
    requires tokeniser.cursor <= tokeniser.buf.Length + 1 && path != []
    requires Walking(w, root, top) && Logged(res.freed, res.closed, freed0, closed0, w.popped)
    modifies res, tokeniser`cursor, tokeniser.buf
    ensures old(tokeniser.cursor) <= tokeniser.cursor <= tokeniser.buf.Length + 1
    ensures next != None ==> old(tokeniser.cursor) < tokeniser.cursor
    ensures Logged(res.freed, res.closed, freed0, closed0, w'.popped)
    ensures forall m :: m in w'.popped + w'.stack ==> m in w.popped + w.stack || fresh(m)
    ensures forall m :: m in w.popped + w.stack ==> m in w'.popped + w'.stack
    ensures var before := WalkFrom(lookup, behind, path, old(tokeniser.buf[..]), old(tokeniser.cursor),
                                   Some(filename), w.files, n);
      match r
      case Err(e) => w' == w && before == Err(e)
      case Ok(top') =>
        && Walking(w', root, top')
        && before == WalkFrom(lookup, behind, path, tokeniser.buf[..], tokeniser.cursor, next, w'.files, n')
  {
    next := tokeniser.Next();
    var directory := if next != None then true else path[|path| - 1] == DELIMITER;
    var name := StringAt(tokeniser.buf[..], filename);
    ghost var freed, closed := res.freed, res.closed;
    r, n', w' := Component(res, lookup, tokeniser.buf, path, behind, n, name, directory, root, top, w);
    LoggedMore(freed, closed, freed0, closed0, w.popped, w'.popped);
  }

  /** The loop of bl_file_iterate_path. */
  method WalkPath(res: Resources, lookup: Lookup, tokeniser: Tokeniser, path: string, behind: Behind,
                  first: Option<nat>, root: Node)
    returns (error: Option<nat>, top: Node, ghost w: Walk)
    requires SameLength(behind) && tokeniser.buf.Length == |path| + 1 + |behind.first|
    requires tokeniser.cursor <= tokeniser.buf.Length + 1 && (first != None ==> path != []) && root.prev == null
    modifies res, tokeniser, tokeniser.buf
    ensures Walking(w, root, top) && forall n :: n in w.popped + w.stack ==> n == root || fresh(n)
    ensures root in w.popped + w.stack
    ensures Logged(res.freed, res.closed, old(res.freed), old(res.closed), w.popped)
    ensures match WalkFrom(lookup, behind, path, old(tokeniser.buf[..]), old(tokeniser.cursor), first,
                           [root.fdata.file], 0)
      case Err(e) => error == Some(e)
      case Ok(files) => error == None && w.files == files
  {
    var filename, n: nat := first, 0;
    top, error := root, None;
    w := Walk([root], [], [root.fdata.file]);
    while filename != None
      invariant tokeniser.cursor <= tokeniser.buf.Length + 1 && (filename != None ==> path != [])
      invariant Walking(w, root, top) && forall n :: n in w.popped + w.stack ==> n == root || fresh(n)
      invariant root in w.popped + w.stack
      invariant Logged(res.freed, res.closed, old(res.freed), old(res.closed), w.popped)
      invariant WalkFrom(lookup, behind, path, tokeniser.buf[..], tokeniser.cursor, filename, w.files, n) ==
                WalkFrom(lookup, behind, path, old(tokeniser.buf[..]), old(tokeniser.cursor), first,
                         [root.fdata.file], 0)
      decreases tokeniser.buf.Length + 1 - tokeniser.cursor, if filename == None then 0 else 1
    {
      var r;
      r, filename, n, w := Round(res, lookup, tokeniser, path, behind, filename.value, n, root, top, w,
                                 old(res.freed), old(res.closed));
      if r.Err? {
        error := Some(r.status);
        break;
      }
      top := r.value;
    }
  }

  lemma {:induction false} TokenNeedsPath(path: string, tail: string)
    requires tail != []
    ensures NextToken(Duplicate(path, |path|, tail), 0).token != None ==> path != []
  {
    assert path == [] ==> Duplicate(path, 0, tail)[0] == NUL;
  }

  /** The copy of the path, with the first token cut off. */
  method FirstToken(path: string, tail: string) returns (tokeniser: Tokeniser, filename: Option<nat>)
    requires tail != []
    ensures fresh(tokeniser) && fresh(tokeniser.buf) && tokeniser.buf.Length == |path| + 1 + |tail|
    ensures Cut(filename, tokeniser.buf[..], tokeniser.cursor) == NextToken(Duplicate(path, |path|, tail), 0)
    ensures tokeniser.cursor <= tokeniser.buf.Length + 1 && (filename != None ==> path != [])
  {
    var copy := StrNDup(path, |path|, tail);
    tokeniser := new Tokeniser(copy);
    TokenNeedsPath(path, tail);
    filename := tokeniser.Next();
  }

  /** Everything but the exit path. */
  method WalkCopy(res: Resources, lookup: Lookup, path: string, root: Node, behind: Behind)
    returns (error: Option<nat>, top: Node, ghost w: Walk)
    requires SameLength(behind) && root.prev == null
    modifies res
    ensures Walking(w, root, top) && forall n :: n in w.popped + w.stack ==> n == root || fresh(n)
    ensures root in w.popped + w.stack
    ensures Logged(res.freed, res.closed, old(res.freed), old(res.closed), w.popped)
    ensures match Walked(lookup, behind, path, root.fdata.file)
      case Err(e) => error == Some(e)
      case Ok(files) => error == None && w.files == files
  {
    var tokeniser, filename := FirstToken(path, behind.first);
    error, top, w := WalkPath(res, lookup, tokeniser, path, behind, filename, root);
  }

  /** bl_file_iterate_path. `order` is the order in which
      nodes are freed: the root and every node the callback made are in it once, the final top
      last. */
  method IteratePath(res: Resources, lookup: Lookup, path: string, root: Node, behind: Behind)
    returns (r: Result<FileData>, ghost order: seq<Node>)
    requires NulFree(path) && root.prev == null && SameLength(behind)
    modifies res
    ensures match Walked(lookup, behind, path, root.fdata.file)
      case Err(e) => r == Err(e)
      case Ok(files) => r.Ok? && files != [] && r.value.file == files[|files| - 1]
    ensures root in order && forall n :: n in order ==> n == root || fresh(n)
    ensures GivenBack(res.freed, res.closed, old(res.freed), old(res.closed), order)
    ensures r.Ok? ==> r.value == order[|order| - 1].fdata
  {
    var error, top;
    ghost var w;
    error, top, w := WalkCopy(res, lookup, path, root, behind);
    r := if error.Some? then Err(error.value) else Ok(top.fdata);
    order := Finish(res, root, top, w, old(res.freed), old(res.closed));
  }
}
