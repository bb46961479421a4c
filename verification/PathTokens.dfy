// Strings of boot-loader/core/utils/string.c: bl_strndup and the in-place tokeniser bl_strtok, which
// both reach one byte behind the copy they work on.

module PathTokens {
  import opened Wrappers

  const NUL: char := '\0'
  const DELIMITER: char := '/'

  // ---------------------------------------------------------------- components

  /** End of the component that position c lies in. */
  function EndOf(p: string, c: nat): (e: nat)
    requires c <= |p|
    ensures c <= e <= |p|
    ensures forall i :: c <= i < e ==> p[i] != DELIMITER
    decreases |p| - c
  {
    if c < |p| && p[c] != DELIMITER then EndOf(p, c + 1) else c
  }

  /** The tokens of a path from position c on. */
  function TokensFrom(p: string, c: nat): seq<string>
    decreases |p| - c
  {
    if c >= |p| then []
    else if p[c] == DELIMITER then TokensFrom(p, c + 1)
    else
      var e := EndOf(p, c + 1);
      [p[c..e]] + TokensFrom(p, e)
  }

  /** The path cut at every delimiter, empty components included. */
  function Split(p: string): (s: seq<string>)
    ensures s != []
  {
    if p == [] then [""]
    else if p[0] == DELIMITER then [""] + Split(p[1..])
    else
      var rest := Split(p[1..]);
      [[p[0]] + rest[0]] + rest[1..]
  }

  function NonEmpty(s: seq<string>): seq<string> {
    if s == [] then [] else (if s[0] == "" then [] else [s[0]]) + NonEmpty(s[1..])
  }

  lemma {:induction false} SplitHead(p: string, c: nat)
    requires c <= |p|
    ensures Split(p[c..])[0] == p[c..EndOf(p, c)]
    ensures EndOf(p, c) < |p| ==> Split(p[c..])[1..] == Split(p[EndOf(p, c) + 1..])
    ensures EndOf(p, c) == |p| ==> Split(p[c..])[1..] == []
    decreases |p| - c
  {
    var q := p[c..];
    if c < |p| {
      assert q[0] == p[c] && q[1..] == p[c + 1..];
      if p[c] != DELIMITER {
        SplitHead(p, c + 1);
        assert p[c..EndOf(p, c)] == [p[c]] + p[c + 1..EndOf(p, c)];
      }
    }
  }

  lemma {:induction false} NonEmptyOf(s: seq<string>, w: string, rest: seq<string>)
    requires s != [] && s[0] == w && s[1..] == rest
    ensures NonEmpty(s) == (if w == "" then [] else [w]) + NonEmpty(rest)
  {
  }

  lemma {:induction false} TokenStep(p: string, c: nat)
    requires c <= |p|
    ensures c < |p| && p[c] != DELIMITER ==> TokensFrom(p, c) == [p[c..EndOf(p, c)]] + TokensFrom(p, EndOf(p, c))
    ensures c < |p| && p[c] == DELIMITER ==> TokensFrom(p, c) == TokensFrom(p, c + 1)
    ensures c == |p| ==> TokensFrom(p, c) == []
    ensures EndOf(p, c) < |p| ==> p[EndOf(p, c)] == DELIMITER
    decreases |p| - c
  {
    if c < |p| && p[c] != DELIMITER {
      TokenStep(p, c + 1);
    }
  }

  lemma {:induction false} ComponentStep(p: string, c: nat, e: nat)
    requires c <= |p| && e == EndOf(p, c)
    ensures NonEmpty(Split(p[c..])) == (if e == c then [] else [p[c..e]]) + ComponentsBehind(p, e)
  {
    var s := Split(p[c..]);
    SplitHead(p, c);
    NonEmptyOf(s, p[c..e], s[1..]);
    assert |p[c..e]| == e - c;
    assert NonEmpty(s[1..]) == ComponentsBehind(p, e);
  }

  lemma {:induction false} TokensStep(p: string, c: nat, e: nat)
    requires c <= |p| && e == EndOf(p, c)
    ensures TokensFrom(p, c) == (if e == c then [] else [p[c..e]]) + TokensBehind(p, e)
  {
    TokenStep(p, c);
    TokenStep(p, e);
  }

  /** What follows the component that position c lies in. */
  function TokensBehind(p: string, e: nat): seq<string> {
    if e < |p| then TokensFrom(p, e + 1) else []
  }

  function ComponentsBehind(p: string, e: nat): seq<string>
    requires e <= |p|
  {
    if e < |p| then NonEmpty(Split(p[e + 1..])) else []
  }

  lemma {:induction false} SameStart<T>(a: seq<T>, b: seq<T>, start: seq<T>, x: seq<T>, y: seq<T>)
    requires a == start + x && b == start + y && x == y
    ensures a == b
  {
  }

  /** The tokens are exactly the non-empty components of the path. */
  lemma {:induction false} TokensAreComponents(p: string, c: nat)
    requires c <= |p|
    ensures TokensFrom(p, c) == NonEmpty(Split(p[c..]))
    decreases |p| - c
  {
    var e := EndOf(p, c);
    ComponentStep(p, c, e);
    TokensStep(p, c, e);
    if e < |p| {
      TokensAreComponents(p, e + 1);
    }
    SameStart(TokensFrom(p, c), NonEmpty(Split(p[c..])), if e == c then [] else [p[c..e]],
              TokensBehind(p, e), ComponentsBehind(p, e));
  }

  // ---------------------------------------------------------------- copies

  /** A C string. */
  ghost predicate NulFree(p: string) {
    forall i :: 0 <= i < |p| ==> p[i] != NUL
  }

  /** What bl_strndup leaves when asked for n characters, from its allocation to the end of the
      memory: n + 1 of them, or the string with its NUL if that is shorter, and a NUL in the first
      byte behind the allocation. */
  function Duplicate(s: string, n: nat, behind: string): string
    requires behind != []
  {
    (s + [NUL])[..Min(|s|, n) + 1] + behind[0 := NUL]
  }

  method StrNDup(s: string, n: nat, behind: string) returns (res: array<char>)
    requires behind != []
    ensures fresh(res) && res[..] == Duplicate(s, n, behind)
  {
    var len := |s| + 1;
    if len > n {
      len := n + 1;
    }
    res := new char[len + |behind|];
    for i := 0 to |behind|
      invariant forall k :: 0 <= k < i ==> res[len + k] == behind[k]
    {
      res[len + i] := behind[i];
    }
    res[len] := NUL;
    assert res[len..] == behind[0 := NUL];
    for i := 0 to len
      invariant res[len..] == behind[0 := NUL]
      invariant forall k :: 0 <= k < i ==> res[k] == (s + [NUL])[k]
    {
      res[i] := if i < |s| then s[i] else NUL;
    }
  }

  /** A byte of the memory; behind its end there are NULs. */
  function CharAt(b: string, i: nat): char {
    if i < |b| then b[i] else NUL
  }

  /** The string that starts at position t and ends at the next NUL. */
  function StringAt(b: string, t: nat): string
    decreases |b| - t
  {
    if CharAt(b, t) == NUL then [] else [b[t]] + StringAt(b, t + 1)
  }

  lemma {:induction false} StringAtIs(b: string, t: nat, w: string)
    requires t + |w| <= |b| && b[t..t + |w|] == w && CharAt(b, t + |w|) == NUL && NulFree(w)
    ensures StringAt(b, t) == w
    decreases |w|
  {
    if w != [] {
      assert b[t] == b[t..t + |w|][0] == w[0];
      assert b[t + 1..t + |w|] == b[t..t + |w|][1..] == w[1..];
      StringAtIs(b, t + 1, w[1..]);
    }
  }

  /** The copy is the string cut to one character more than asked for, so it is what was asked for
      if and only if that is the whole string. */
  lemma {:induction false} DuplicateMeaning(s: string, n: nat, behind: string)
    requires NulFree(s) && behind != []
    ensures StringAt(Duplicate(s, n, behind), 0) == s[..Min(|s|, n + 1)]
    ensures StringAt(Duplicate(s, n, behind), 0) == s[..Min(|s|, n)] <==> n >= |s|
  {
    StringAtIs(Duplicate(s, n, behind), 0, s[..Min(|s|, n + 1)]);
  }

  // ---------------------------------------------------------------- the tokeniser

  /** The first position from c on that holds no delimiter. */
  function Skip(b: string, c: nat): (t: nat)
    ensures c <= t <= Max(c, |b|) && CharAt(b, t) != DELIMITER
    ensures forall i :: c <= i < t ==> CharAt(b, i) == DELIMITER
    decreases |b| - c
  {
    if CharAt(b, c) == DELIMITER then Skip(b, c + 1) else c
  }

  /** The first position from c on that holds a NUL or a delimiter. */
  function TokenEnd(b: string, c: nat): (e: nat)
    ensures c <= e <= Max(c, |b|) && (CharAt(b, e) == NUL || CharAt(b, e) == DELIMITER)
    ensures forall i :: c <= i < e ==> CharAt(b, i) != NUL && CharAt(b, i) != DELIMITER
    decreases |b| - c
  {
    if CharAt(b, c) == NUL || CharAt(b, c) == DELIMITER then c else TokenEnd(b, c + 1)
  }

  /** A call of bl_strtok: the token, the memory, and the cursor it leaves. */
  datatype Cut = Cut(token: Option<nat>, buf: string, cursor: nat)

  function NextToken(b: string, c: nat): (r: Cut)
    ensures |r.buf| == |b| && c <= r.cursor <= Max(c, |b| + 1)
    ensures r.token.Some? ==> c <= r.token.value < |b| && r.token.value < r.cursor
    ensures forall i :: 0 <= i < |b| && !(c <= i < r.cursor) ==> r.buf[i] == b[i]
  {
    var t := Skip(b, c);
    if CharAt(b, t) == NUL then Cut(None, b, t)
    else
      var e := TokenEnd(b, t);
      Cut(Some(t), if e < |b| then b[e := NUL] else b, e + 1)
  }

  /** bl_strtok with the static cursor as its state. It runs over whatever memory there is. */
  class Tokeniser {
    const buf: array<char>
    var cursor: nat

    constructor (s: array<char>)
      ensures buf == s && cursor == 0
    {
      buf, cursor := s, 0;
    }

    method At(i: nat) returns (c: char)
      ensures c == CharAt(buf[..], i)
    {
      c := if i < buf.Length then buf[i] else NUL;
    }

    /** Skips delimiters, cuts the next token off by a NUL and leaves the cursor behind it. */
    method Next() returns (token: Option<nat>)
      modifies this`cursor, buf
      ensures Cut(token, buf[..], cursor) == NextToken(old(buf[..]), old(cursor))
    {
      ghost var b, c0 := buf[..], cursor;
      var c := At(cursor);
      while c == DELIMITER
        invariant buf[..] == b && c == CharAt(b, cursor) && Skip(b, cursor) == Skip(b, c0)
        decreases buf.Length - cursor
      {
        cursor := cursor + 1;
        c := At(cursor);
      }
      assert Skip(b, c0) == cursor;
      if c == NUL {
        return None;
      }
      var start: nat, end: nat := cursor, cursor;
      while c != NUL && c != DELIMITER
        invariant cursor == start && buf[..] == b && c == CharAt(b, end) && TokenEnd(b, end) == TokenEnd(b, start)
        decreases buf.Length - end
      {
        end := end + 1;
        c := At(end);
      }
      assert TokenEnd(b, start) == end;
      if end < buf.Length {
        buf[end] := NUL;
      }
      assert buf[..] == if end < |b| then b[end := NUL] else b;
      token := Some(start);
      cursor := end + 1;
    }
  }

  // ---------------------------------------------------------------- tokens of a copied path

  /** A NUL-terminated string that ends before the cursor. */
  ghost predicate TokenAt(b: string, t: nat, cursor: nat, w: string) {
    t + |w| < cursor && t + |w| < |b| && b[t..t + |w|] == w && b[t + |w|] == NUL && NulFree(w)
  }

  /** From position c on b still holds the path and its NUL. */
  ghost predicate CopiedFrom(b: string, path: string, c: nat) {
    && |path| < |b|
    && (forall i :: c <= i < |path| ==> b[i] == path[i])
    && (c <= |path| ==> b[|path|] == NUL)
  }

  lemma {:induction false} SkipInPath(b: string, path: string, c: nat)
    requires NulFree(path) && c <= |path| && CopiedFrom(b, path, c)
    ensures var t := Skip(b, c);
      c <= t <= |path| && TokensFrom(path, t) == TokensFrom(path, c)
    decreases |path| - c
  {
    if c < |path| && path[c] == DELIMITER {
      SkipInPath(b, path, c + 1);
    }
  }

  lemma {:induction false} EndInPath(b: string, path: string, c: nat)
    requires NulFree(path) && c <= |path| && CopiedFrom(b, path, c)
    ensures TokenEnd(b, c) == EndOf(path, c)
    decreases |path| - c
  {
    if c < |path| && path[c] != DELIMITER {
      EndInPath(b, path, c + 1);
    }
  }

  lemma {:induction false} OnlyDelimiters(p: string, c: nat)
    requires c <= |p| && TokensFrom(p, c) == []
    ensures forall i :: c <= i < |p| ==> p[i] == DELIMITER
    decreases |p| - c
  {
    if c < |p| {
      OnlyDelimiters(p, c + 1);
    }
  }

  predicate Trailing(path: string) {
    path != [] && path[|path| - 1] == DELIMITER
  }

  lemma {:induction false} CutInPath(b: string, path: string, c: nat, e: nat)
    requires NulFree(path) && c < |path| && CopiedFrom(b, path, c) && e == EndOf(path, c) > c
    ensures var b' := b[e := NUL];
      TokenAt(b', c, e + 1, path[c..e]) && CopiedFrom(b', path, e + 1)
  {
    assert b[e := NUL][c..e] == path[c..e];
  }

  /** Whether a delimiter follows the last component. */
  lemma {:induction false} LastEnd(path: string, c: nat, e: nat)
    requires c < |path| && e == EndOf(path, c) > c && forall i :: e <= i < |path| ==> path[i] == DELIMITER
    ensures e == |path| <==> !Trailing(path)
  {
    assert path[|path| - 1] == DELIMITER <==> e < |path|;
  }

  lemma {:induction false} NothingBehind(path: string, c: nat, e: nat)
    requires c < |path| && e == EndOf(path, c) > c
    ensures TokensFrom(path, e + 1) == [] ==> (e == |path| <==> !Trailing(path))
  {
    TokenStep(path, c);
    if TokensFrom(path, e + 1) == [] {
      if e < |path| {
        OnlyDelimiters(path, e + 1);
      }
      LastEnd(path, c, e);
    }
  }

  lemma {:induction false} FirstToken(b: string, path: string, c: nat)
    requires NulFree(path) && c < |path| && path[c] != DELIMITER && CopiedFrom(b, path, c)
    ensures var e := EndOf(path, c);
      && NextToken(b, c) == Cut(Some(c), b[e := NUL], e + 1)
      && c < e && TokensFrom(path, c) == [path[c..e]] + TokensFrom(path, e + 1)
  {
    EndInPath(b, path, c);
    TokensStep(path, c, EndOf(path, c));
  }

  lemma {:induction false} SkipFirst(b: string, c: nat)
    ensures NextToken(b, c) == NextToken(b, Skip(b, c))
  {
  }

  /** The next token of a path is its next component. Behind the last one the cursor stands on the
      byte behind the copy, unless the path ends in a delimiter. */
  lemma {:induction false} NextInPath(b: string, path: string, c: nat)
    requires NulFree(path) && c <= |path| && CopiedFrom(b, path, c)
    ensures var r, tokens := NextToken(b, c), TokensFrom(path, c);
      if tokens == [] then r.token == None && r.buf == b && r.cursor == |path|
      else
        && r.token.Some? && r.cursor <= |path| + 1 && CopiedFrom(r.buf, path, r.cursor)
        && TokenAt(r.buf, r.token.value, r.cursor, tokens[0]) && TokensFrom(path, r.cursor) == tokens[1..]
        && (tokens[1..] == [] ==> (r.cursor == |path| + 1 <==> !Trailing(path)))
  {
    SkipInPath(b, path, c);
    SkipFirst(b, c);
    var t := Skip(b, c);
    if t < |path| {
      FirstToken(b, path, t);
      CutInPath(b, path, t, EndOf(path, t));
      NothingBehind(path, t, EndOf(path, t));
    }
  }
}
