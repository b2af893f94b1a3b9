/** Path strings (fs.c:559-597). A path is the bytes of a C string before its NUL. */
module Path {
  import opened Layout

  const SLASH: byte := 47
  const DIRSIZ := 14

  datatype Option<T> = None | Some(value: T)

  // A file name as the kernel compares it: up to the first NUL, and no more than 14 bytes.
  function Canon(s: seq<byte>): (n: seq<byte>)
    ensures |n| <= DIRSIZ && |n| <= |s| && n == s[..|n|] && 0 !in n
    ensures |n| == |s| || |n| == DIRSIZ || s[|n|] == 0
  {
    CanonUpTo(s, DIRSIZ)
  }

  function CanonUpTo(s: seq<byte>, n: nat): (r: seq<byte>)
    ensures |r| <= n && |r| <= |s| && r == s[..|r|] && 0 !in r
    ensures |r| == |s| || |r| == n || s[|r|] == 0
  {
    if n == 0 || s == [] || s[0] == 0 then [] else [s[0]] + CanonUpTo(s[1..], n - 1)
  }

  // strncmp(s, t, n) == 0, byte by byte; past its end a string reads as NUL.
  predicate SameUpTo(s: seq<byte>, t: seq<byte>, n: nat) {
    var a, b := if s == [] then 0 else s[0], if t == [] then 0 else t[0];
    n == 0 || (a == b && (a == 0 || SameUpTo(s[1..], t[1..], n - 1)))
  }

  lemma {:induction false} SameIsCanon(s: seq<byte>, t: seq<byte>, n: nat)
    ensures SameUpTo(s, t, n) <==> CanonUpTo(s, n) == CanonUpTo(t, n)
  {
    if n > 0 && s != [] && t != [] && s[0] == t[0] && s[0] != 0 {
      SameIsCanon(s[1..], t[1..], n - 1);
      assert CanonUpTo(s, n)[1..] == CanonUpTo(s[1..], n - 1);
      assert CanonUpTo(t, n)[1..] == CanonUpTo(t[1..], n - 1);
    }
  }

  // strncpy(name, s, 14): the name, padded with NULs.
  function Padded(s: seq<byte>): (r: seq<byte>)
    ensures |r| == DIRSIZ && r[..|Canon(s)|] == Canon(s)
    ensures forall k :: |Canon(s)| <= k < DIRSIZ ==> r[k] == 0
  {
    Canon(s) + seq(DIRSIZ - |Canon(s)|, _ => 0)
  }

  lemma PaddedName(s: seq<byte>)
    ensures Canon(Padded(s)) == Canon(s)
  {
    CanonIs(Padded(s), Canon(s));
  }

  // What pins down the canonical form.
  lemma CanonIs(s: seq<byte>, n: seq<byte>)
    requires |n| <= DIRSIZ && |n| <= |s| && n == s[..|n|] && 0 !in n
    requires |n| == |s| || |n| == DIRSIZ || s[|n|] == 0
    ensures Canon(s) == n
  {}

  // ---------- components ----------

  // The fields between slashes, empty ones included.
  function Fields(p: seq<byte>): (f: seq<seq<byte>>)
    ensures |f| > 0
  {
    if p == [] then [[]]
    else if p[0] == SLASH then [[]] + Fields(p[1..])
    else [[p[0]] + Fields(p[1..])[0]] + Fields(p[1..])[1..]
  }

  // The non-empty ones, each cut to 14 bytes.
  function NonEmpty(f: seq<seq<byte>>): seq<seq<byte>> {
    if f == [] then []
    else (if f[0] == [] then [] else [Cut(f[0])]) + NonEmpty(f[1..])
  }

  function Cut(e: seq<byte>): seq<byte> { if |e| <= DIRSIZ then e else e[..DIRSIZ] }

  // What a component keeps of an element is what a directory keeps of a name.
  lemma CutIsCanon(e: seq<byte>)
    requires 0 !in e
    ensures Cut(e) == Canon(e) == e[..Min(|e|, 14)]
  {}

  // A path's components, as its '/'-separated non-empty parts.
  function Components(p: seq<byte>): seq<seq<byte>> { NonEmpty(Fields(p)) }

  lemma ComponentsSlash(p: seq<byte>)
    requires p != [] && p[0] == SLASH
    ensures Components(p) == Components(p[1..])
  {}

  lemma FieldsStep(p: seq<byte>, b: byte, q: seq<byte>, x: seq<byte>, bx: seq<byte>, t: seq<seq<byte>>)
    requires b != SLASH && p == [b] + q && Fields(q) == [x] + t && bx == [b] + x
    ensures Fields(p) == [bx] + t
  {
    assert p[1..] == q && ([x] + t)[1..] == t;
  }

  lemma FirstByte(e: seq<byte>, rest: seq<byte>)
    requires e != []
    ensures e == [e[0]] + e[1..] && e + rest == [e[0]] + (e[1..] + rest)
    ensures SLASH !in e ==> SLASH !in e[1..]
  {}

  lemma {:induction false} FieldsOfElement(e: seq<byte>, rest: seq<byte>, tail: seq<seq<byte>>)
    requires SLASH !in e && (rest == [] || rest[0] == SLASH)
    requires tail == if rest == [] then [] else Fields(rest[1..])
    ensures Fields(e + rest) == [e] + tail
  {
    if e == [] {
      assert e + rest == rest;
    } else {
      FirstByte(e, rest);
      FieldsOfElement(e[1..], rest, tail);
      FieldsStep(e + rest, e[0], e[1..] + rest, e[1..], e, tail);
    }
  }

  lemma ComponentsElement(e: seq<byte>, rest: seq<byte>)
    requires e != [] && SLASH !in e && (rest == [] || rest[0] == SLASH)
    ensures Components(e + rest) == [Cut(e)] + Components(rest)
  {
    var tail := if rest == [] then [] else Fields(rest[1..]);
    FieldsOfElement(e, rest, tail);
    assert Fields(e + rest)[1..] == tail;
    if rest != [] {
      ComponentsSlash(rest);
    } else {
      assert Fields(rest)[1..] == [];
    }
  }

  // What is left starts with an element, or is empty.
  lemma NoComponents(p: seq<byte>)
    requires p == [] || p[0] != SLASH
    ensures Components(p) == [] <==> p == []
  {}

  predicate Suffix(r: seq<byte>, p: seq<byte>) { |r| <= |p| && r == p[|p| - |r|..] }

  // The path /a/b/c of the elements a, b and c.
  function JoinPath(es: seq<seq<byte>>): seq<byte> {
    if es == [] then [] else [47] + es[0] + JoinPath(es[1..])
  }

  // Its components are the elements, as directories keep them.
  lemma {:induction false} ComponentsOfJoin(es: seq<seq<byte>>)
    requires forall k :: 0 <= k < |es| ==> es[k] != [] && 47 !in es[k] && 0 !in es[k]
    ensures |Components(JoinPath(es))| == |es|
    ensures forall k :: 0 <= k < |es| ==> Components(JoinPath(es))[k] == Canon(es[k])
  {
    if es == [] {
      NoComponents([]);
    } else {
      var rest := JoinPath(es[1..]);
      ComponentsOfJoin(es[1..]);
      assert JoinPath(es)[1..] == es[0] + rest;
      ComponentsSlash(JoinPath(es));
      ComponentsElement(es[0], rest);
      CutIsCanon(es[0]);
    }
  }

  // All that p has in front of r is slashes.
  predicate OnlySlashes(p: seq<byte>, r: seq<byte>) {
    |r| <= |p| && forall k :: 0 <= k < |p| - |r| ==> p[k] == 47
  }

  // The path from its first byte that is no slash.
  method SkipSlashes(path0: seq<byte>) returns (path: seq<byte>)
    ensures Suffix(path, path0) && Components(path) == Components(path0)
    ensures (path == [] || path[0] != SLASH) && (path == [] <==> Components(path0) == []) && OnlySlashes(path0, path)
  {
    path := path0;
    while path != [] && path[0] == SLASH
      invariant Suffix(path, path0) && Components(path) == Components(path0) && OnlySlashes(path0, path)
      decreases |path|
    {
      ComponentsSlash(path);
      path := path[1..];
    }
    NoComponents(path);
  }

  // The path from its first slash on.
  method SkipElement(s: seq<byte>) returns (path: seq<byte>, len: nat)
    ensures Suffix(path, s) && len == |s| - |path| && SLASH !in s[..len]
    ensures path == [] || path[0] == SLASH
  {
    path := s;
    while path != [] && path[0] != SLASH
      invariant Suffix(path, s) && SLASH !in s[..|s| - |path|]
      decreases |path|
    {
      path := path[1..];
    }
    len := |s| - |path|;
  }

  // An element in front of `path`, both out of path0.
  lemma ElementOf(path0: seq<byte>, s: seq<byte>, path: seq<byte>, len: nat)
    requires Suffix(s, path0) && Suffix(path, s) && len == |s| - |path| && 0 !in path0
    ensures s == s[..len] + path && 0 !in s[..len] && Suffix(path, path0)
  {
    forall k | 0 <= k < len
      ensures s[k] in path0
    {
      assert s[k] == path0[|path0| - |s| + k];
    }
  }

  // The first 14 bytes of an element, or all of it and a NUL over what name held before.
  function CopyName(name: seq<byte>, e: seq<byte>): (r: seq<byte>)
    requires |name| == DIRSIZ && 0 !in e
    ensures |r| == DIRSIZ && Canon(r) == Cut(e)
    ensures Copied(r, e)
  {
    var r := if |e| >= DIRSIZ then e[..DIRSIZ] else e + [0] + name[|e| + 1..];
    CanonIs(r, Cut(e));
    r
  }

  // The first run of bytes other than '/' is p[i..j], and the next one starts at k.
  predicate FirstElement(p: seq<byte>, i: nat, j: nat, k: nat) {
    && i < j <= k <= |p|
    && (forall c :: 0 <= c < i ==> p[c] == 47) && (forall c :: i <= c < j ==> p[c] != 47)
    && (forall c :: j <= c < k ==> p[c] == 47) && (j < k || j == |p|) && (k == |p| || p[k] != 47)
  }

  // The element's first 14 bytes are in `name`, with a NUL behind them if there is room.
  predicate NameIs(name: seq<byte>, p: seq<byte>, i: nat, j: nat)
    requires i <= j <= |p|
  {
    && |name| == 14
    && (forall c :: 0 <= c < 14 && c < j - i ==> name[c] == p[i + c]) && (j - i < 14 ==> name[j - i] == 0)
  }

  lemma ElementPlace(path0: seq<byte>, s: seq<byte>, path: seq<byte>, rest: seq<byte>, i: nat, j: nat, k: nat)
    requires Suffix(s, path0) && Suffix(path, s) && Suffix(rest, path) && OnlySlashes(path0, s) &&
      OnlySlashes(path, rest)
    requires SLASH !in s[..|s| - |path|] && |path| < |s| && (path == [] || path[0] == SLASH)
    requires rest == [] || rest[0] != SLASH
    requires i == |path0| - |s| && j == |path0| - |path| && k == |path0| - |rest|
    ensures FirstElement(path0, i, j, k) && rest == path0[k..]
  {
    forall c | i <= c < j
      ensures path0[c] != 47
    {
      assert path0[c] == s[..|s| - |path|][c - i];
    }
    forall c | j <= c < k
      ensures path0[c] == 47
    {
      assert path0[c] == s[c - i] && s[c - i] == path[c - j];
    }
  }

  lemma NamePlace(path0: seq<byte>, s: seq<byte>, len: nat, name: seq<byte>, i: nat, j: nat)
    requires Suffix(s, path0) && len <= |s| && Copied(name, s[..len]) && i == |path0| - |s| && j == i + len
    ensures NameIs(name, path0, i, j)
  {
    forall c | 0 <= c < 14 && c < len
      ensures name[c] == path0[i + c]
    {
      assert name[c] == s[..len][c];
    }
  }

  predicate Copied(name: seq<byte>, e: seq<byte>) {
    |name| == 14 && (forall c :: 0 <= c < 14 && c < |e| ==> name[c] == e[c]) && (|e| < 14 ==> name[|e|] == 0)
  }

  // Take the first element off a path: its name, and what is left behind the slashes.
  method Skipelem(path0: seq<byte>, name0: seq<byte>)
    returns (rest: Option<seq<byte>>, name: seq<byte>, ghost i: nat, ghost j: nat, ghost k: nat)
    requires 0 !in path0 && |name0| == DIRSIZ
    ensures |name| == DIRSIZ
    ensures if Components(path0) == [] then rest == None
            else rest.Some? && Components(path0) == [Canon(name)] + Components(rest.value)
    ensures rest.Some? ==>
      && |rest.value| < |path0| && Suffix(rest.value, path0)
      && (rest.value == [] || rest.value[0] != SLASH)
      && (rest.value == [] <==> |Components(path0)| == 1)
    ensures rest == None ==> forall c :: 0 <= c < |path0| ==> path0[c] == 47
    ensures rest.Some? ==> FirstElement(path0, i, j, k) && NameIs(name, path0, i, j) && rest.value == path0[k..]
  {
    var s := SkipSlashes(path0);
    if s == [] {
      return None, name0, 0, 0, 0;
    }
    var path, len := SkipElement(s);
    var tail;
    name, tail, i, j, k := SplitElement(path0, s, path, len, name0);
    return Some(tail), name, i, j, k;
  }

  // The same from the element s[..len] on.
  method SplitElement(path0: seq<byte>, s: seq<byte>, path: seq<byte>, len: nat, name0: seq<byte>)
    returns (name: seq<byte>, tail: seq<byte>, ghost i: nat, ghost j: nat, ghost k: nat)
    requires 0 !in path0 && |name0| == DIRSIZ && Suffix(s, path0) && OnlySlashes(path0, s)
    requires Components(s) == Components(path0)
    requires Suffix(path, s) && 0 < len == |s| - |path| && SLASH !in s[..len] && (path == [] || path[0] == SLASH)
    ensures |name| == DIRSIZ && Components(path0) == [Canon(name)] + Components(tail)
    ensures |tail| < |path0| && Suffix(tail, path0) && (tail == [] || tail[0] != SLASH)
    ensures tail == [] <==> |Components(path0)| == 1
    ensures FirstElement(path0, i, j, k) && NameIs(name, path0, i, j) && tail == path0[k..]
  {
    ElementOf(path0, s, path, len);
    ComponentsElement(s[..len], path);
    name := CopyName(name0, s[..len]);
    NamePlace(path0, s, len, name, |path0| - |s|, |path0| - |path|);
    tail := SkipSlashes(path);
    i, j, k := |path0| - |s|, |path0| - |path|, |path0| - |tail|;
    ElementPlace(path0, s, path, tail, i, j, k);
  }
}
