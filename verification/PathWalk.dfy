// What bl_file_iterate_path makes of its copy in memory, compared with the components of the path.

module PathWalk {
  import opened PathResolution
  import opened PathTokens
  import opened Wrappers

  /** The walk has names[0] in hand and the others ahead; others had the processor n times. */
  ghost predicate Pending(behind: Behind, path: string, b: string, c: nat, filename: Option<nat>,
                          names: seq<string>, n: nat)
    requires SameLength(behind)
  {
    && NulFree(path) && |b| == |path| + 1 + |behind.first| && c <= |path| + 1 && CopiedFrom(b, path, c)
    && b[|path| + 1..] == Tail(behind, n)
    && filename.Some? && names != [] && TokenAt(b, filename.value, c, names[0])
    && TokensFrom(path, c) == names[1..]
    && (|names| == 1 ==> (c == |path| + 1 <==> !Trailing(path)))
  }

  lemma {:induction false} NothingBehind(path: string, c: nat)
    requires c >= |path|
    ensures TokensFrom(path, c) == []
  {
  }

  /** Fetching and cutting leaves the memory behind the copy alone while the cursor is in the copy. */
  lemma {:induction false} FetchKeeps(b: string, path: string, c: nat, t: nat, w: string)
    requires NulFree(path) && c <= |path| && CopiedFrom(b, path, c) && TokenAt(b, t, c, w)
    ensures var r := NextToken(b, c);
      && TokenAt(r.buf, t, r.cursor, w) && StringAt(r.buf, t) == w
      && r.cursor <= |path| + 1 && r.buf[|path| + 1..] == b[|path| + 1..]
  {
    NextInPath(b, path, c);
    var r := NextToken(b, c);
    assert r.buf[t..t + |w|] == b[t..t + |w|];
    StringAtIs(r.buf, t, w);
  }

  /** The token behind the one in hand. */
  lemma {:induction false} FetchNext(behind: Behind, path: string, b: string, c: nat, filename: Option<nat>,
        names: seq<string>, n: nat)
    requires SameLength(behind) && Pending(behind, path, b, c, filename, names, n) && |names| > 1
    ensures var r := NextToken(b, c);
      && r.token.Some? && StringAt(r.buf, filename.value) == names[0]
      && Pending(behind, path, r.buf, r.cursor, r.token, names[1..], n)
  {
    if c == |path| + 1 {
      NothingBehind(path, c);
    }
    NextInPath(b, path, c);
    FetchKeeps(b, path, c, filename.value, names[0]);
  }

  lemma {:induction false} DisturbedPending(behind: Behind, path: string, b: string, c: nat, filename: Option<nat>,
        names: seq<string>, n: nat, m: nat)
    requires SameLength(behind) && Pending(behind, path, b, c, filename, names, n) && m > 0
    ensures Pending(behind, path, Disturbed(b, path, behind, m), c, filename, names, m)
  {
    var b', t, w := Disturbed(b, path, behind, m), filename.value, names[0];
    assert b'[t..t + |w|] == b[t..t + |w|];
  }

  /** The stack when the last component comes into hand, and how often others had the processor. */
  function Arrival(lookup: Lookup, stack: seq<File>, names: seq<string>, n: nat): (r: Result<(seq<File>, nat)>)
    requires stack != []
    ensures r.Ok? ==> r.value.0 != [] && r.value.1 >= n
    decreases |names|
  {
    if |names| <= 1 then Ok((stack, n))
    else
      match Step(lookup, stack, names[0], true)
      case Err(e) => Err(e)
      case Ok(s) => Arrival(lookup, s, names[1..], if Disturbs(stack, names[0]) then n + 1 else n)
  }

  /** The fold gets there too. */
  lemma {:induction false} FoldArrives(lookup: Lookup, stack: seq<File>, names: seq<string>, n: nat,
        rest: seq<string>, trailing: bool)
    requires stack != [] && names != []
    ensures Resolve(lookup, stack, names + rest, trailing) ==
      match Arrival(lookup, stack, names, n)
      case Err(e) => Err(e)
      case Ok((s, _)) => Resolve(lookup, s, [names[|names| - 1]] + rest, trailing)
    decreases |names|
  {
    if |names| == 1 {
      assert names == [names[0]];
    } else {
      assert (names + rest)[1..] == names[1..] + rest && (names + rest)[0] == names[0];
      match Step(lookup, stack, names[0], true)
      case Err(_) =>
      case Ok(s) =>
        FoldArrives(lookup, s, names[1..], if Disturbs(stack, names[0]) then n + 1 else n, rest, trailing);
    }
  }

  /** What is in hand when the walk gets to the last component. */
  datatype Place = Place(buf: string, cursor: nat, filename: Option<nat>)

  /** One round with more components ahead. */
  lemma {:induction false} OneRound(lookup: Lookup, behind: Behind, path: string, at: Place, names: seq<string>,
        stack: seq<File>, n: nat) returns (next: Place)
    requires SameLength(behind) && stack != [] && |names| > 1
    requires Pending(behind, path, at.buf, at.cursor, at.filename, names, n)
    ensures match Step(lookup, stack, names[0], true)
      case Err(e) => WalkFrom(lookup, behind, path, at.buf, at.cursor, at.filename, stack, n) == Err(e)
      case Ok(s) =>
        var m := if Disturbs(stack, names[0]) then n + 1 else n;
        && Pending(behind, path, next.buf, next.cursor, next.filename, names[1..], m)
        && WalkFrom(lookup, behind, path, at.buf, at.cursor, at.filename, stack, n) ==
           WalkFrom(lookup, behind, path, next.buf, next.cursor, next.filename, s, m)
  {
    FetchNext(behind, path, at.buf, at.cursor, at.filename, names, n);
    var r := NextToken(at.buf, at.cursor);
    if Disturbs(stack, names[0]) {
      DisturbedPending(behind, path, r.buf, r.cursor, r.token, names[1..], n, n + 1);
      next := Place(Disturbed(r.buf, path, behind, n + 1), r.cursor, r.token);
    } else {
      next := Place(r.buf, r.cursor, r.token);
    }
  }

  /** The walk gets to its last component as the fold does. */
  lemma {:induction false} WalkArrives(lookup: Lookup, behind: Behind, path: string, at: Place, names: seq<string>,
        stack: seq<File>, n: nat) returns (last: Place)
    requires SameLength(behind) && stack != []
    requires Pending(behind, path, at.buf, at.cursor, at.filename, names, n)
    ensures match Arrival(lookup, stack, names, n)
      case Err(e) => WalkFrom(lookup, behind, path, at.buf, at.cursor, at.filename, stack, n) == Err(e)
      case Ok((s, m)) =>
        && Pending(behind, path, last.buf, last.cursor, last.filename, [names[|names| - 1]], m)
        && WalkFrom(lookup, behind, path, at.buf, at.cursor, at.filename, stack, n) ==
           WalkFrom(lookup, behind, path, last.buf, last.cursor, last.filename, s, m)
    decreases |names|
  {
    last := at;
    if |names| == 1 {
      assert names == [names[0]];
    } else {
      var next := OneRound(lookup, behind, path, at, names, stack, n);
      match Step(lookup, stack, names[0], true)
      case Err(_) =>
      case Ok(s) =>
        var m := if Disturbs(stack, names[0]) then n + 1 else n;
        last := WalkArrives(lookup, behind, path, next, names[1..], s, m);
    }
  }

  /** The last component, when the byte behind the copy is not read or reads as a NUL. */
  lemma {:induction false} LastStep(lookup: Lookup, behind: Behind, path: string, at: Place, w: string,
        stack: seq<File>, n: nat)
    requires SameLength(behind) && stack != []
    requires Pending(behind, path, at.buf, at.cursor, at.filename, [w], n)
    requires Trailing(path) || Tail(behind, n)[0] == NUL
    ensures WalkFrom(lookup, behind, path, at.buf, at.cursor, at.filename, stack, n) ==
            Resolve(lookup, stack, [w], Trailing(path))
  {
    var b, c, t := at.buf, at.cursor, at.filename.value;
    if Trailing(path) {
      NextInPath(b, path, c);
    } else {
      assert b[|path| + 1] == b[|path| + 1..][0];
    }
    assert NextToken(b, c).token == None && NextToken(b, c).buf == b;
    StringAtIs(b, t, w);
  }

  /** The walk over the copy in hand: with the first token, or without any. */
  lemma {:induction false} Begins(behind: Behind, path: string)
    requires SameLength(behind) && NulFree(path)
    ensures var r, names := NextToken(Duplicate(path, |path|, behind.first), 0), TokensFrom(path, 0);
      if names == [] then r.token == None else Pending(behind, path, r.buf, r.cursor, r.token, names, 0)
  {
    var b := Duplicate(path, |path|, behind.first);
    assert b[|path| + 1..] == Tail(behind, 0);
    NextInPath(b, path, 0);
    var r := NextToken(b, 0);
    assert r.cursor <= |path| + 1 ==> r.buf[|path| + 1..] == b[|path| + 1..];
  }

  /** The byte behind the copy stays a NUL as long as others have the processor. */
  ghost predicate StaysNul(behind: Behind)
    requires SameLength(behind)
  {
    forall n :: 0 <= n < |behind.later| ==> behind.later[n][0] == NUL
  }

  /** Nobody gets the processor before the last component is in hand. */
  ghost predicate NoNameBeforeLast(names: seq<string>) {
    forall i :: 0 <= i < |names| - 1 ==> names[i] == PREVIOUS || names[i] == CURRENT
  }

  lemma {:induction false} NoNameNoDisturbance(lookup: Lookup, root: File, names: seq<string>, n: nat)
    requires NoNameBeforeLast(names)
    ensures Arrival(lookup, [root], names, n) == Ok(([root], n))
    decreases |names|
  {
    if |names| > 1 {
      assert Step(lookup, [root], names[0], true) == Ok([root]);
      assert forall i :: 0 <= i < |names[1..]| ==> names[1..][i] == names[i + 1];
      NoNameNoDisturbance(lookup, root, names[1..], n);
    }
  }

  lemma {:induction false} NameDisturbs(lookup: Lookup, stack: seq<File>, names: seq<string>, n: nat)
    requires stack != [] && !NoNameBeforeLast(names)
    ensures var r := Arrival(lookup, stack, names, n); r.Ok? ==> r.value.1 > n
    decreases |names|
  {
    match Step(lookup, stack, names[0], true)
    case Err(_) =>
    case Ok(s) =>
      if !Disturbs(stack, names[0]) {
        var i :| 0 <= i < |names| - 1 && names[i] != PREVIOUS && names[i] != CURRENT;
        assert names[1..][i - 1] == names[i];
        NameDisturbs(lookup, s, names[1..], n);
      }
  }

  /** The walk arrives at its last component at the place `last`, unless a component before fails. */
  ghost predicate Arrives(lookup: Lookup, behind: Behind, path: string, root: File, names: seq<string>, last: Place)
    requires SameLength(behind) && names != []
  {
    match Arrival(lookup, [root], names, 0)
    case Err(e) => Walked(lookup, behind, path, root) == Err(e)
    case Ok((s, m)) => ArrivesAt(lookup, behind, path, root, names[|names| - 1], last, s, m)
  }

  ghost predicate ArrivesAt(lookup: Lookup, behind: Behind, path: string, root: File, w: string, last: Place,
                            stack: seq<File>, n: nat)
    requires SameLength(behind) && stack != []
  {
    && Pending(behind, path, last.buf, last.cursor, last.filename, [w], n)
    && Walked(lookup, behind, path, root) ==
       WalkFrom(lookup, behind, path, last.buf, last.cursor, last.filename, stack, n)
  }

  /** The whole walk up to its last component. */
  lemma {:induction false} ToLast(lookup: Lookup, behind: Behind, path: string, root: File, names: seq<string>)
    returns (last: Place)
    requires SameLength(behind) && NulFree(path) && names == TokensFrom(path, 0) != []
    ensures Arrives(lookup, behind, path, root, names, last)
  {
    var first := NextToken(Duplicate(path, |path|, behind.first), 0);
    Begins(behind, path);
    last := WalkArrives(lookup, behind, path, Place(first.buf, first.cursor, first.token), names, [root], 0);
  }

  lemma {:induction false} FoldToLast(lookup: Lookup, root: File, names: seq<string>, trailing: bool)
    requires names != []
    ensures Resolve(lookup, [root], names, trailing) ==
      match Arrival(lookup, [root], names, 0)
      case Err(e) => Err(e)
      case Ok((s, _)) => Resolve(lookup, s, [names[|names| - 1]], trailing)
  {
    FoldArrives(lookup, [root], names, 0, [], trailing);
    assert names + [] == names && [names[|names| - 1]] + [] == [names[|names| - 1]];
  }

  lemma {:induction false} NulOnArrival(lookup: Lookup, behind: Behind, root: File, names: seq<string>)
    requires SameLength(behind) && (NoNameBeforeLast(names) || StaysNul(behind))
    ensures var r := Arrival(lookup, [root], names, 0); r.Ok? ==> Tail(behind, r.value.1)[0] == NUL
  {
    if NoNameBeforeLast(names) {
      NoNameNoDisturbance(lookup, root, names, 0);
    }
  }

  /** The walk is the fold of the components when the byte behind the copy is not read, is read before
      others had the processor, or stays a NUL. */
  lemma {:induction false} WalkIsFold(lookup: Lookup, behind: Behind, path: string, root: File)
    requires SameLength(behind) && NulFree(path)
    requires Trailing(path) || NoNameBeforeLast(TokensFrom(path, 0)) || StaysNul(behind)
    ensures Walked(lookup, behind, path, root) == Resolve(lookup, [root], TokensFrom(path, 0), Trailing(path))
  {
    var names := TokensFrom(path, 0);
    if names == [] {
      Begins(behind, path);
    } else {
      var last := ToLast(lookup, behind, path, root, names);
      FoldToLast(lookup, root, names, Trailing(path));
      if !Trailing(path) {
        NulOnArrival(lookup, behind, root, names);
      }
      match Arrival(lookup, [root], names, 0)
      case Err(_) =>
      case Ok((s, m)) => LastStep(lookup, behind, path, last, names[|names| - 1], s, m);
    }
  }

  // ---------------------------------------------------------------- one component too many

  /** Memory that holds a further token and nothing behind it. */
  ghost predicate HoldsToken(tail: string, w: string) {
    && |w| + 2 <= |tail| && tail[..|w|] == w && tail[|w|] == NUL && tail[|w| + 1] == NUL
    && w != [] && NulFree(w) && forall i :: 0 <= i < |w| ==> w[i] != DELIMITER
  }

  lemma {:induction false} EndBehind(b: string, c: nat, e: nat)
    requires c <= e < |b| && b[e] == NUL && forall i :: c <= i < e ==> b[i] != NUL && b[i] != DELIMITER
    ensures TokenEnd(b, c) == e
    decreases e - c
  {
    if c < e {
      EndBehind(b, c + 1, e);
    }
  }

  lemma {:induction false} TokenBehind(b: string, at: nat, w: string)
    requires at <= |b| && HoldsToken(b[at..], w)
    ensures NextToken(b, at) == Cut(Some(at), b, at + |w| + 1)
    ensures StringAt(b, at) == w && NextToken(b, at + |w| + 1) == Cut(None, b, at + |w| + 1)
  {
    var tail := b[at..];
    forall i | 0 <= i < |w|
      ensures b[at + i] == w[i]
    {
      assert b[at + i] == tail[i] == tail[..|w|][i];
    }
    assert b[at + |w|] == tail[|w|] == NUL && b[at + |w| + 1] == tail[|w| + 1] == NUL;
    assert b[at..at + |w|] == w;
    EndBehind(b, at, at + |w|);
    assert b[at + |w| := NUL] == b;
    StringAtIs(b, at, w);
  }

  /** Whenever others have had the processor, the memory behind the copy holds the token w. */
  ghost predicate LeavesToken(behind: Behind, w: string)
    requires SameLength(behind)
  {
    behind.later != [] && forall n :: 0 <= n < |behind.later| ==> HoldsToken(behind.later[n], w)
  }

  lemma {:induction false} ExtraStep(lookup: Lookup, behind: Behind, path: string, b: string, at: nat, w: string,
        stack: seq<File>, n: nat)
    requires SameLength(behind) && |b| == |path| + 1 + |behind.first| && at <= |b| && stack != []
    requires HoldsToken(b[at..], w) && !Trailing(path)
    ensures WalkFrom(lookup, behind, path, b, at + |w| + 1, Some(at), stack, n) == Resolve(lookup, stack, [w], false)
  {
    TokenBehind(b, at, w);
  }

  /** One round whose fetch leaves the memory as it is. */
  lemma {:induction false} RoundAt(lookup: Lookup, behind: Behind, path: string, b: string, c: nat, t: nat,
        next: Option<nat>, c': nat, stack: seq<File>, n: nat)
    requires SameLength(behind) && |b| == |path| + 1 + |behind.first| && c <= |b| + 1 && stack != []
    requires NextToken(b, c) == Cut(next, b, c')
    ensures WalkFrom(lookup, behind, path, b, c, Some(t), stack, n) ==
      match Step(lookup, stack, StringAt(b, t), next != None || Trailing(path))
      case Err(e) => Err(e)
      case Ok(s) =>
        if Disturbs(stack, StringAt(b, t)) then
          WalkFrom(lookup, behind, path, Disturbed(b, path, behind, n + 1), c', next, s, n + 1)
        else WalkFrom(lookup, behind, path, b, c', next, s, n)
  {
  }

  lemma {:induction false} TokenLeft(behind: Behind, path: string, b: string, w: string, n: nat)
    requires SameLength(behind) && LeavesToken(behind, w) && n > 0 && |b| == |path| + 1 + |behind.first|
    ensures HoldsToken(Disturbed(b, path, behind, n)[|path| + 1..], w)
  {
    assert Disturbed(b, path, behind, n)[|path| + 1..] == Tail(behind, n);
  }

  lemma {:induction false} ResolveTwo(lookup: Lookup, stack: seq<File>, v: string, w: string)
    requires stack != []
    ensures Resolve(lookup, stack, [v, w], false) ==
      match Step(lookup, stack, v, true)
      case Err(e) => Err(e)
      case Ok(s) => Resolve(lookup, s, [w], false)
  {
    assert [v, w][1..] == [w];
  }

  lemma {:induction false} RunsOnAt(lookup: Lookup, behind: Behind, path: string, b: string, t: nat, v: string,
        w: string, stack: seq<File>, n: nat)
    requires SameLength(behind) && stack != [] && n > 0 && LeavesToken(behind, w) && !Trailing(path)
    requires |b| == |path| + 1 + |behind.first| && HoldsToken(b[|path| + 1..], w) && StringAt(b, t) == v
    ensures WalkFrom(lookup, behind, path, b, |path| + 1, Some(t), stack, n) == Resolve(lookup, stack, [v, w], false)
  {
    var c := |path| + 1;
    TokenBehind(b, c, w);
    RoundAt(lookup, behind, path, b, c, t, Some(c), c + |w| + 1, stack, n);
    ResolveTwo(lookup, stack, v, w);
    var r := Step(lookup, stack, v, true);
    if r.Ok? && Disturbs(stack, v) {
      TokenLeft(behind, path, b, w, n + 1);
      ExtraStep(lookup, behind, path, Disturbed(b, path, behind, n + 1), c, w, r.value, n + 1);
    } else if r.Ok? {
      ExtraStep(lookup, behind, path, b, c, w, r.value, n);
    }
  }

  /** The last component of a path is followed by one the path does not have. */
  lemma {:induction false} LastRunsOn(lookup: Lookup, behind: Behind, path: string, at: Place, v: string, w: string,
        stack: seq<File>, n: nat)
    requires SameLength(behind) && stack != [] && n > 0 && LeavesToken(behind, w) && !Trailing(path)
    requires Pending(behind, path, at.buf, at.cursor, at.filename, [v], n)
    ensures WalkFrom(lookup, behind, path, at.buf, at.cursor, at.filename, stack, n) ==
            Resolve(lookup, stack, [v, w], false)
  {
    StringAtIs(at.buf, at.filename.value, v);
    RunsOnAt(lookup, behind, path, at.buf, at.filename.value, v, w, stack, n);
  }

  lemma {:induction false} RunsOnFrom(lookup: Lookup, behind: Behind, path: string, root: File, v: string,
        last: Place, w: string, stack: seq<File>, n: nat)
    requires SameLength(behind) && stack != [] && n > 0 && LeavesToken(behind, w) && !Trailing(path)
    requires ArrivesAt(lookup, behind, path, root, v, last, stack, n)
    ensures Walked(lookup, behind, path, root) == Resolve(lookup, stack, [v, w], false)
  {
    LastRunsOn(lookup, behind, path, last, v, w, stack, n);
  }

  lemma {:induction false} FoldOneMore(lookup: Lookup, root: File, names: seq<string>, w: string)
    requires !NoNameBeforeLast(names)
    ensures match Arrival(lookup, [root], names, 0)
      case Err(e) => Resolve(lookup, [root], names + [w], false) == Err(e)
      case Ok((s, m)) =>
        m > 0 && Resolve(lookup, [root], names + [w], false) == Resolve(lookup, s, [names[|names| - 1], w], false)
  {
    FoldArrives(lookup, [root], names, 0, [w], false);
    NameDisturbs(lookup, [root], names, 0);
    assert [names[|names| - 1]] + [w] == [names[|names| - 1], w];
  }

  /** Once others had the processor and left a token there, the walk takes one component too many: the
      path's last component is asked for as a directory, and the token is looked up in it. */
  lemma {:induction false} WalkRunsOn(lookup: Lookup, behind: Behind, path: string, root: File, w: string)
    requires SameLength(behind) && NulFree(path) && LeavesToken(behind, w)
    requires !Trailing(path) && !NoNameBeforeLast(TokensFrom(path, 0))
    ensures Walked(lookup, behind, path, root) == Resolve(lookup, [root], TokensFrom(path, 0) + [w], false)
  {
    var names := TokensFrom(path, 0);
    var last := ToLast(lookup, behind, path, root, names);
    var at := Arrival(lookup, [root], names, 0);
    FoldOneMore(lookup, root, names, w);
    if at.Ok? {
      RunsOnFrom(lookup, behind, path, root, names[|names| - 1], last, w, at.value.0, at.value.1);
    }
  }

  /** A file system in which every name is found one level further down. */
  const DEEPER: Lookup := (name: string, directory: bool, file: File) => Ok(File(file.id + 1))

  lemma {:induction false} DeeperFinds(stack: seq<File>, names: seq<string>, trailing: bool)
    requires stack != []
    ensures Resolve(DEEPER, stack, names, trailing).Ok?
    ensures Resolve(DEEPER, stack, names, trailing) == Resolve(DEEPER, stack, names, true)
    decreases |names|
  {
    if names != [] {
      DeeperFinds(Step(DEEPER, stack, names[0], true).value, names[1..], trailing);
    }
  }

  /** There one component more leads elsewhere. */
  lemma {:induction false} OneMoreShows(root: File, names: seq<string>, w: string)
    requires w != PREVIOUS && w != CURRENT
    ensures Resolve(DEEPER, [root], names + [w], false) != Resolve(DEEPER, [root], names, false)
  {
    ResolveInParts(DEEPER, [root], names, [w], false);
    DeeperFinds([root], names, false);
  }
}
