/** Paths over the file tree: the resolver (src/drivers/fs/fs_emulated.c), the
    printer and the mkdir command (src/apps/shell/commands/commands.c) and tinypad's
    own resolver (src/apps/tinypad/tinypad.c). */
module Paths {
  import opened FileTree
  import opened Text

  // ----- What a path means -----

  /** First child of d called name, from slot i on; NULL when there is none. */
  function FindFrom(s: Store, d: Ptr, name: string, i: nat): Ptr
    requires d in s
    decreases s[d].count - i
  {
    if i >= s[d].count || i >= |s[d].slots| then NULL
    else if s[d].slots[i] in s && s[s[d].slots[i]].name == name then s[d].slots[i]
    else FindFrom(s, d, name, i + 1)
  }

  function FindIn(s: Store, d: Ptr, name: string): Ptr
    requires d in s
  {
    if s[d].kind != Dir then NULL else FindFrom(s, d, name, 0)
  }

  /** One path component; NULL when it leads nowhere. */
  function Step(s: Store, cur: Ptr, tok: string): Ptr {
    if cur !in s then NULL
    else if tok == "" || tok == "." then cur
    else if tok == ".." then (if s[cur].parent != NULL then s[cur].parent else cur)
    else FindIn(s, cur, tok)
  }

  /** The components of a relative path, one after the other. */
  function Walk(s: Store, cur: Ptr, path: string): Ptr
    decreases |path|
  {
    var k := Cut(path, '/');
    var next := Step(s, cur, path[..k]);
    if k == |path| || next == NULL then next else Walk(s, next, path[k + 1..])
  }

  function Resolve(s: Store, root: Ptr, path: string, current: Ptr): Ptr {
    if path != "" && path[0] == '/' then Walk(s, root, path[1..]) else Walk(s, current, path)
  }

  // ----- Composition -----

  /** Walking a path with a slash in it is walking one side, then the other. */
  lemma {:induction false} WalkJoin(s: Store, cur: Ptr, p: string, q: string)
    ensures var r := Walk(s, cur, p);
      Walk(s, cur, p + "/" + q) == if r == NULL then NULL else Walk(s, r, q)
    decreases |p|
  {
    var k, all := Cut(p, '/'), p + "/" + q;
    CutOfJoin(p, q);
    assert all[..k] == p[..k];
    var next := Step(s, cur, p[..k]);
    if k == |p| {
      assert all[k + 1..] == q;
    } else {
      assert all[k + 1..] == p[k + 1..] + "/" + q;
      if next != NULL {
        WalkJoin(s, next, p[k + 1..], q);
      }
    }
  }

  /** Resolution composes, unless p is empty (the joined path would then be
      absolute) or q is itself absolute. */
  lemma ResolveComposes(s: Store, root: Ptr, p: string, q: string, current: Ptr)
    requires p != "" && (q == "" || q[0] != '/')
    ensures var r := Resolve(s, root, p, current);
      Resolve(s, root, p + "/" + q, current) == if r == NULL then NULL else Resolve(s, root, q, r)
  {
    if p[0] == '/' {
      assert (p + "/" + q)[1..] == p[1..] + "/" + q;
      WalkJoin(s, root, p[1..], q);
    } else {
      WalkJoin(s, current, p, q);
    }
  }

  // ----- What the components of a path are -----

  /** The parent of n, or n itself at the top. */
  function Above(s: Store, n: Ptr): Ptr
    requires n in s
  {
    if s[n].parent == NULL then n else s[n].parent
  }

  /** c is the first child of that name in directory d. */
  ghost predicate FirstNamed(s: Store, d: Ptr, name: string, c: Ptr)
    requires d in s && Sized(s[d])
  {
    && s[d].kind == Dir
    && exists i :: 0 <= i < s[d].count && Children(s[d])[i] == c && c in s && s[c].name == name &&
         forall j :: 0 <= j < i && Children(s[d])[j] in s ==> s[Children(s[d])[j]].name != name
  }

  ghost predicate NoneNamed(s: Store, d: Ptr, name: string)
    requires d in s && Sized(s[d])
  {
    s[d].kind == Dir ==> forall c :: c in Children(s[d]) && c in s ==> s[c].name != name
  }

  lemma {:induction false} FindFromIs(s: Store, d: Ptr, name: string, i: nat) returns (k: nat)
    requires d in s && Sized(s[d]) && i <= s[d].count
    ensures i <= k <= s[d].count
    ensures forall j :: i <= j < k && Children(s[d])[j] in s ==> s[Children(s[d])[j]].name != name
    ensures k == s[d].count ==> FindFrom(s, d, name, i) == NULL
    ensures k < s[d].count ==>
      var c := Children(s[d])[k]; c in s && s[c].name == name && FindFrom(s, d, name, i) == c
    decreases s[d].count - i
  {
    k := i;
    if i < s[d].count && !(s[d].slots[i] in s && s[s[d].slots[i]].name == name) {
      k := FindFromIs(s, d, name, i + 1);
    }
  }

  /** A lookup gives the first child of that name, and NULL only for a name no child has
      or in a file. */
  lemma FindInIs(s: Store, depth: map<Ptr, nat>, loose: set<Ptr>, d: Ptr, name: string)
    requires Tree(s, depth, loose) && d in s
    ensures Sized(s[d])
    ensures if FindIn(s, d, name) == NULL then NoneNamed(s, d, name) else FirstNamed(s, d, name, FindIn(s, d, name))
  {
    NodeOk(s, depth, loose, d);
    var k := FindFromIs(s, d, name, 0);
    if s[d].kind == Dir && k < s[d].count { assert Children(s[d])[k] in Children(s[d]); }
  }

  /** A name is looked up in the directory reached, ".." goes to the parent and stays at
      the top, "." and nothing stay. */
  lemma OneComponent(s: Store, depth: map<Ptr, nat>, loose: set<Ptr>, root: Ptr, n: Ptr, name: string)
    requires Tree(s, depth, loose) && n in s && '/' !in name
    ensures Sized(s[n])
    ensures Resolve(s, root, "..", n) == Above(s, n)
    ensures Resolve(s, root, ".", n) == n && Resolve(s, root, "", n) == n
    ensures name !in ["", ".", ".."] ==>
      var c := Resolve(s, root, name, n);
      if c == NULL then NoneNamed(s, n, name) else FirstNamed(s, n, name, c)
  {
    WalkEmpty(s, n);
    CutOfName("..");
    CutOfName(".");
    CutOfName(name);
    FindInIs(s, depth, loose, n, name);
  }

  /** A leading slash starts at the root, wherever the walk would have started. */
  lemma FromTheRoot(s: Store, root: Ptr, path: string, anywhere: Ptr)
    requires path == "" || path[0] != '/'
    ensures Resolve(s, root, "/" + path, anywhere) == Resolve(s, root, path, root)
  {
    assert ("/" + path)[1..] == path;
  }

  /** So at the end of any path that leads to n: "/.." goes up, "/." and "/" stay, and a
      name is looked up there. */
  lemma ThenOneComponent(s: Store, depth: map<Ptr, nat>, loose: set<Ptr>, root: Ptr, path: string, current: Ptr,
                         n: Ptr, name: string)
    requires Tree(s, depth, loose) && n in s && path != "" && Resolve(s, root, path, current) == n && '/' !in name
    ensures Sized(s[n])
    ensures Resolve(s, root, path + "/" + "..", current) == Above(s, n)
    ensures Resolve(s, root, path + "/" + ".", current) == n && Resolve(s, root, path + "/" + "", current) == n
    ensures name !in ["", ".", ".."] ==>
      var c := Resolve(s, root, path + "/" + name, current);
      if c == NULL then NoneNamed(s, n, name) else FirstNamed(s, n, name, c)
  {
    OneComponent(s, depth, loose, root, n, name);
    ResolveComposes(s, root, path, "..", current);
    ResolveComposes(s, root, path, ".", current);
    ResolveComposes(s, root, path, "", current);
    if name != "" { assert name[0] in name; }
    ResolveComposes(s, root, path, name, current);
  }

  // ----- The resolver loop -----

  /** No component outgrows the 32-byte token buffer. */
  predicate ShortComponents(path: string)
    decreases |path|
  {
    var k := Cut(path, '/');
    k <= 31 && (k == |path| || ShortComponents(path[k + 1..]))
  }

  method EmulatedFsFindIn(fs: FileSystem, dir: Ptr, name: string, ghost loose: set<Ptr>) returns (child: Ptr)
    requires fs.Valid(loose) && dir in fs.nodes
    ensures child == FindIn(fs.nodes, dir, name)
  {
    NodeOk(fs.nodes, fs.depth, loose, dir);
    if fs.nodes[dir].kind != Dir { return NULL; }
    var i := 0;
    while i < fs.nodes[dir].count
      invariant i <= fs.nodes[dir].count
      invariant FindFrom(fs.nodes, dir, name, 0) == FindFrom(fs.nodes, dir, name, i)
    {
      assert fs.nodes[dir].slots[i] in Children(fs.nodes[dir]);
      if fs.nodes[fs.nodes[dir].slots[i]].name == name {
        return fs.nodes[dir].slots[i];
      }
      i := i + 1;
    }
    return NULL;
  }

  /** Lines 67-78: the effect of the token just ended, if it is not empty. */
  method ApplyToken(fs: FileSystem, current: Ptr, name: string, ghost loose: set<Ptr>) returns (next: Ptr)
    requires fs.Valid(loose) && current in fs.nodes
    ensures next == Step(fs.nodes, current, name)
    ensures next != NULL ==> next in fs.nodes
  {
    StepIn(fs.nodes, fs.depth, loose, current, name);
    next := current;
    if |name| > 0 {
      if name == "." {
      } else if name == ".." {
        if fs.nodes[current].parent != NULL { next := fs.nodes[current].parent; }
      } else {
        next := EmulatedFsFindIn(fs, current, name, loose);
      }
    }
  }

  method EmulatedFsResolve(fs: FileSystem, path: string, currentDir: Ptr, ghost loose: set<Ptr>) returns (r: Ptr)
    requires fs.Valid(loose) && fs.root in fs.nodes && currentDir in fs.nodes
    requires NUL !in path && ShortComponents(if path != "" && path[0] == '/' then path[1..] else path)
    ensures r == Resolve(fs.nodes, fs.root, path, currentDir)
  {
    if path != "" && path[0] == '/' {
      r := ResolveRelative(fs, path[1..], fs.root, loose);
    } else {
      r := ResolveRelative(fs, path, currentDir, loose);
    }
  }

  /** `token[pos++] = c;` */
  method PutChar(token: array<char>, pos: nat, c: char)
    requires pos < token.Length
    modifies token
    ensures token[..pos + 1] == old(token[..pos]) + [c]
  {
    token[pos] := c;
  }

  /** Where the reader stands: `left` is what remains of the path from the start of
      the current token, whose characters so far are tok; i in the path is |tok| in
      what is left of it. */
  ghost predicate Scanning(path: string, left: string, i: nat, tok: string) {
    && |tok| <= |left| <= |path| && i == |path| - |left| + |tok| && left == path[|path| - |left|..]
    && |tok| <= Cut(left, '/') && |tok| <= 31 && tok == left[..|tok|]
    && ShortComponents(left)
  }

  /** Lines 65-78: the token just read decides where to go on, and whether. */
  method EndToken(fs: FileSystem, current: Ptr, token: array<char>, pos: nat, ghost loose: set<Ptr>) returns (next: Ptr)
    requires fs.Valid(loose) && current in fs.nodes && pos < token.Length
    modifies token
    ensures next == Step(fs.nodes, current, old(token[..pos]))
    ensures next != NULL ==> next in fs.nodes
  {
    ghost var name := token[..pos];
    token[pos] := NUL;
    assert token[..pos] == name;
    next := ApplyToken(fs, current, token[..pos], loose);
  }

  /** The character loop of lines 58-88. */
  method ResolveRelative(fs: FileSystem, path: string, start: Ptr, ghost loose: set<Ptr>) returns (current: Ptr)
    requires fs.Valid(loose) && start in fs.nodes
    requires NUL !in path && ShortComponents(path)
    ensures current == Walk(fs.nodes, start, path)
  {
    current := start;
    var token := new char[32](_ => NUL);
    var pos: nat, i: nat := 0, 0;
    ghost var left, tok := path, "";
    while true
      invariant Scanning(path, left, i, tok)
      invariant pos == |tok| && token[..pos] == tok
      invariant current in fs.nodes
      invariant Walk(fs.nodes, start, path) == Walk(fs.nodes, current, left)
      decreases |path| - i
    {
      CharRead(path, left, i, tok);
      var c := if i < |path| then path[i] else NUL;
      if c == '/' || c == NUL {
        TokenEnds(fs.nodes, current, path, left, i, tok);
        current := EndToken(fs, current, token, pos, loose);
        if current == NULL { return NULL; }
        if c == NUL { return; }
        left, tok := left[|tok| + 1..], "";
        pos := 0;
      } else {
        ReadOn(path, left, i, tok);
        tok := tok + [c];
        PutChar(token, pos, c);
        pos := pos + 1;
      }
      i := i + 1;
    }
  }

  // ----- The printer -----

  /** "/name" for every node from below the top down to n. */
  function PathOf(s: Store, depth: map<Ptr, nat>, n: Ptr): string
    decreases if n in depth then depth[n] else 0
  {
    if n !in s || s[n].parent == NULL || n !in depth || s[n].parent !in depth || depth[s[n].parent] >= depth[n] then ""
    else PathOf(s, depth, s[n].parent) + "/" + s[n].name
  }

  function Printed(s: Store, depth: map<Ptr, nat>, n: Ptr): string {
    if PathOf(s, depth, n) == "" then "/" else PathOf(s, depth, n)
  }

  /** `for (i = len - 1; i >= 0; i--) path[--pos] = name[i];` then the slash. */
  method Prepend(path: array<char>, pos: nat, name: string) returns (pos': nat)
    requires |name| < pos <= path.Length
    modifies path
    ensures pos' == pos - |name| - 1
    ensures path[pos'..pos] == ['/'] + name
    ensures forall j :: pos <= j < path.Length ==> path[j] == old(path[j])
  {
    var i := |name|;
    pos' := pos;
    while i > 0
      invariant 0 <= i <= |name| && pos' == pos - |name| + i
      invariant forall j :: i <= j < |name| ==> path[pos - |name| + j] == name[j]
      invariant forall j :: pos <= j < path.Length ==> path[j] == old(path[j])
    {
      i := i - 1;
      pos' := pos' - 1;
      path[pos'] := name[i];
    }
    pos' := pos' - 1;
    path[pos'] := '/';
  }

  method ShcPwd(fs: FileSystem, currentDir: Ptr) returns (path: array<char>, pos: nat, result: string)
    requires fs.Valid({}) && (currentDir != NULL ==> currentDir in fs.nodes)
    requires |PathOf(fs.nodes, fs.depth, currentDir)| <= 255
    ensures result == Printed(fs.nodes, fs.depth, currentDir)
  {
    path := new char[256](_ => NUL);
    pos := 255;
    var node := currentDir;
    ghost var whole := PathOf(fs.nodes, fs.depth, currentDir);
    while node != NULL
      invariant node != NULL ==> node in fs.nodes
      invariant pos <= 255
      invariant PathOf(fs.nodes, fs.depth, node) + path[pos..255] == whole
      decreases if node in fs.depth then fs.depth[node] + 1 else 0
    {
      NodeOk(fs.nodes, fs.depth, {}, node);
      if fs.nodes[node].parent == NULL { break; }
      ghost var tail, up := path[pos..255], PathOf(fs.nodes, fs.depth, fs.nodes[node].parent);
      assert whole == up + "/" + fs.nodes[node].name + tail;
      var pos' := Prepend(path, pos, fs.nodes[node].name);
      assert path[pos'..255] == path[pos'..pos] + path[pos..255];
      assert path[pos..255] == tail;
      Concat4(up, ['/'], fs.nodes[node].name, tail);
      pos := pos';
      node := fs.nodes[node].parent;
    }
    assert PathOf(fs.nodes, fs.depth, node) == "";
    assert path[pos..255] == whole;
    result := if pos == 255 then "/" else path[pos..255];
  }

  // ----- Names -----

  /** At most 31 characters, no slash, and not one of the two special components. */
  predicate GoodName(n: string) {
    n != "" && |n| <= 31 && '/' !in n && NUL !in n && n != "." && n != ".."
  }

  /** The children of p carry good names, each its own. */
  ghost predicate NamedWell(s: Store, p: Ptr)
    requires p in s && Sized(s[p]) && ChildrenAgree(s, p)
  {
    var k := Children(s[p]);
    && (forall i :: 0 <= i < |k| ==> GoodName(s[k[i]].name))
    && (forall i, j :: 0 <= i < j < |k| ==> s[k[i]].name != s[k[j]].name)
  }

  /** A tree under root with good, unique sibling names. */
  ghost predicate NamedTree(s: Store, depth: map<Ptr, nat>, root: Ptr) {
    && Tree(s, depth, {})
    && root in s && s[root].parent == NULL && s[root].kind == Dir
    && forall p {:trigger ChildrenAgree(s, p)} :: p in s ==> Sized(s[p]) && ChildrenAgree(s, p) && NamedWell(s, p)
  }

  /** Printer and parser undo each other: the printed path of any node attached to
      the root resolves, from anywhere, to that node, and it never outgrows the
      parser's token buffer. */
  lemma {:induction false} PrintThenResolve(s: Store, depth: map<Ptr, nat>, root: Ptr, n: Ptr, anywhere: Ptr)
    requires NamedTree(s, depth, root) && n in s && Under(s, depth, root, n)
    ensures Resolve(s, root, Printed(s, depth, n), anywhere) == n
    ensures NUL !in Printed(s, depth, n) && ShortComponents(Printed(s, depth, n)[1..])
  {
    if n == root {
      assert PathOf(s, depth, n) == "";
      assert "/"[1..] == "";
    } else {
      WalkPathOf(s, depth, root, n);
    }
  }

  /** So different nodes print differently. */
  lemma PrintedInjective(s: Store, depth: map<Ptr, nat>, root: Ptr, n: Ptr, m: Ptr)
    requires NamedTree(s, depth, root) && n in s && m in s && Under(s, depth, root, n) && Under(s, depth, root, m)
    requires Printed(s, depth, n) == Printed(s, depth, m)
    ensures n == m
  {
    PrintThenResolve(s, depth, root, n, root);
    PrintThenResolve(s, depth, root, m, root);
  }

  /** The printed path with "/.." behind it leads to the parent. */
  lemma PrintedUp(s: Store, depth: map<Ptr, nat>, root: Ptr, n: Ptr, anywhere: Ptr)
    requires NamedTree(s, depth, root) && n in s && Under(s, depth, root, n)
    ensures Resolve(s, root, Printed(s, depth, n) + "/" + "..", anywhere) == Above(s, n)
  {
    PrintThenResolve(s, depth, root, n, anywhere);
    ThenOneComponent(s, depth, {}, root, Printed(s, depth, n), anywhere, n, "");
  }

  /** A component lengthens the printed path by no more than a slash and itself. */
  lemma StepLength(s: Store, depth: map<Ptr, nat>, cur: Ptr, tok: string)
    requires Tree(s, depth, {}) && cur in s && Step(s, cur, tok) != NULL
    ensures |PathOf(s, depth, Step(s, cur, tok))| <= |PathOf(s, depth, cur)| + 1 + |tok|
  {
    NodeOk(s, depth, {}, cur);
    if tok != "" && tok != "." && tok != ".." {
      FindFromIn(s, cur, tok, 0);
      NodeOk(s, depth, {}, Step(s, cur, tok));
    }
  }

  lemma {:induction false} WalkLength(s: Store, depth: map<Ptr, nat>, cur: Ptr, path: string)
    requires Tree(s, depth, {}) && cur in s && Walk(s, cur, path) != NULL
    ensures |PathOf(s, depth, Walk(s, cur, path))| <= |PathOf(s, depth, cur)| + 1 + |path|
    decreases |path|
  {
    var k := Cut(path, '/');
    StepLength(s, depth, cur, path[..k]);
    StepIn(s, depth, {}, cur, path[..k]);
    if k < |path| {
      WalkLength(s, depth, Step(s, cur, path[..k]), path[k + 1..]);
    }
  }

  /** No absolute path to a node is shorter than its printed path. */
  lemma PrintedShortest(s: Store, depth: map<Ptr, nat>, root: Ptr, path: string, anywhere: Ptr)
    requires Tree(s, depth, {}) && root in s && s[root].parent == NULL && path != "" && path[0] == '/'
    requires Resolve(s, root, path, anywhere) != NULL
    ensures |Printed(s, depth, Resolve(s, root, path, anywhere))| <= |path|
  {
    WalkLength(s, depth, root, path[1..]);
  }

  // ----- Tinypad's resolver -----

  /** Copies at most 255 characters; the rest of the 256 bytes become NUL. */
  method Strncpy256(path: string) returns (copy: array<char>)
    requires NUL !in path
    ensures fresh(copy) && HasStr(copy[..], 0, Truncated(path))
  {
    copy := new char[256](_ => NUL);
    var i := 0;
    while i < 256 && i < |path|
      invariant i <= 256 && i <= |path|
      invariant forall j :: 0 <= j < i ==> copy[j] == path[j]
      invariant forall j :: i <= j < 256 ==> copy[j] == NUL
    {
      copy[i] := path[i];
      i := i + 1;
    }
    copy[255] := NUL;
  }

  /** The bytes of the string at index i. */
  method ReadStr(b: array<char>, i: nat, ghost s: string) returns (r: string)
    requires HasStr(b[..], i, s)
    ensures r == s
  {
    r := "";
    var j := i;
    while b[j] != NUL
      invariant i <= j <= i + |s| && r == s[..j - i]
      decreases b.Length - j
    {
      CharAt(b[..], i, s, j - i);
      r := r + [b[j]];
      j := j + 1;
    }
    CharAt(b[..], i, s, j - i);
  }

  /** The tokenising resolver agrees with the kernel's on "/" + path (cut off after
      255 characters, the size of its copy). */
  method ResolveFolder(fs: FileSystem, path: string, ghost loose: set<Ptr>, ghost anywhere: Ptr) returns (current: Ptr)
    requires fs.Valid(loose) && fs.root in fs.nodes
    requires NUL !in path && ShortComponents(Truncated(path))
    ensures current == Resolve(fs.nodes, fs.root, "/" + Truncated(path), anywhere)
  {
    ghost var cut := Truncated(path);
    assert ("/" + cut)[1..] == cut;
    current := fs.root;
    var copy := Strncpy256(path);
    var ptr: int := 0;
    ghost var left := cut;
    while true
      invariant current in fs.nodes && ShortComponents(left)
      invariant StillToDeliver(copy[..], ptr, left) && fresh(copy)
      invariant Walk(fs.nodes, fs.root, cut) == Walk(fs.nodes, current, left)
      decreases |left|
    {
      WalkEmpty(fs.nodes, current);
      var tok, next := Strtok(copy, ptr, '/', left);
      if tok == NONE { break; }
      ghost var name := left[..Cut(left, '/')];
      StepIn(fs.nodes, fs.depth, loose, current, name);
      WalkRest(fs.nodes, current, left);
      ShortToken(left);
      var token := ReadStr(copy, tok, name);
      var child := EmulatedFsResolve(fs, token, current, loose);
      if child == NULL { return NULL; }
      current := child;
      left := Rest(left, '/');
      ptr := next;
    }
  }

  // ----- mkdir -----

  /** Scans back from index i over slashes, or over anything else; -1 at the front. */
  function SkipSlashes(path: string, i: int): (j: int)
    requires -1 <= i < |path|
    ensures -1 <= j <= i
  {
    if i >= 0 && path[i] == '/' then SkipSlashes(path, i - 1) else i
  }

  lemma {:induction false} SkipSlashesIs(path: string, i: int)
    requires -1 <= i < |path|
    ensures var j := SkipSlashes(path, i);
      (j >= 0 ==> path[j] != '/') && forall k :: j < k <= i ==> path[k] == '/'
    decreases i + 1
  {
    if i >= 0 && path[i] == '/' {
      SkipSlashesIs(path, i - 1);
    }
  }

  function SkipName(path: string, i: int): (j: int)
    requires -1 <= i < |path|
    ensures -1 <= j <= i
  {
    if i >= 0 && path[i] != '/' then SkipName(path, i - 1) else i
  }

  lemma {:induction false} SkipNameIs(path: string, i: int)
    requires -1 <= i < |path|
    ensures var j := SkipName(path, i);
      (j >= 0 ==> path[j] == '/') && forall k :: j < k <= i ==> path[k] != '/'
    decreases i + 1
  {
    if i >= 0 && path[i] != '/' {
      SkipNameIs(path, i - 1);
    }
  }

  function Basename(path: string): string {
    var i := SkipSlashes(path, |path| - 1);
    if i < 0 then path else path[SkipName(path, i) + 1..]
  }

  /** The name behind the last slash that has one behind it, with whatever slashes end
      the path; a path of nothing but slashes is its own basename. */
  lemma BasenameMeans(path: string, head: string, name: string, tail: string)
    requires path == head + name + tail && '/' !in name
    requires head == "" || head[|head| - 1] == '/'
    requires forall k :: 0 <= k < |tail| ==> tail[k] == '/'
    ensures name != "" ==> Basename(path) == name + tail
    ensures name == head == "" ==> Basename(path) == path
  {
    if name != "" {
      var last := |head| + |name| - 1;
      LastOfName(path, head, name, tail, last);
      assert path[|head|..] == name + tail;
    } else if head == "" {
      assert path == tail;
      SkipSlashesIs(path, |path| - 1);
    }
  }

  /** Index of the last slash, -1 when there is none. */
  function LastSlash(path: string): int {
    SkipName(path, |path| - 1)
  }

  method BackOverSlashes(path: string) returns (i: int)
    ensures i == SkipSlashes(path, |path| - 1)
  {
    i := |path| - 1;
    while i >= 0 && path[i] == '/'
      invariant -1 <= i < |path| && SkipSlashes(path, |path| - 1) == SkipSlashes(path, i)
    {
      i := i - 1;
    }
  }

  method BackOverName(path: string, from: int) returns (i: int)
    requires -1 <= from < |path|
    ensures i == SkipName(path, from)
  {
    i := from;
    while i >= 0 && path[i] != '/'
      invariant -1 <= i <= from && SkipName(path, from) == SkipName(path, i)
    {
      i := i - 1;
    }
  }

  method FsBasename(path: string) returns (r: string)
    ensures r == Basename(path)
  {
    if |path| == 0 { return path; }
    var i := BackOverSlashes(path);
    if i < 0 { return path; }
    i := BackOverName(path, i);
    return path[i + 1..];
  }

  datatype MkdirResult = MissingOperand | InvalidName | AlreadyExists | InvalidParent | Created

  function ParentPath(path: string): string
    requires LastSlash(path) >= 0
  {
    path[..if LastSlash(path) < 255 then LastSlash(path) else 255]
  }

  /** The directory mkdir puts the new one in. */
  function MkdirParent(s: Store, root: Ptr, path: string, cur: Ptr): Ptr {
    if LastSlash(path) < 0 then cur else Resolve(s, root, ParentPath(path), cur)
  }

  function MkdirOutcome(s: Store, root: Ptr, path: string, cur: Ptr): MkdirResult {
    if path == "" then MissingOperand
    else if Basename(path) == "" then InvalidName
    else if Resolve(s, root, path, cur) != NULL then AlreadyExists
    else
      var p := MkdirParent(s, root, path, cur);
      if LastSlash(path) >= 0 && (p == NULL || p !in s || s[p].kind != Dir) then InvalidParent else Created
  }

  /** The first 255 characters. */
  function Truncated(path: string): string {
    if |path| <= 255 then path else path[..255]
  }

  /** The parent is where what precedes the last slash leads, cut off after 255
      characters; for a path without a slash it is the current directory. */
  lemma ParentIs(s: Store, root: Ptr, head: string, name: string, cur: Ptr)
    requires '/' !in name
    ensures MkdirParent(s, root, name, cur) == cur
    ensures MkdirParent(s, root, head + "/" + name, cur) == Resolve(s, root, Truncated(head), cur)
  {
    LastSlashIs(name, -1);
    LastSlashIs(head + "/" + name, |head|);
    assert (head + "/" + name)[..|head|] == head;
    if |head| > 255 { assert (head + "/" + name)[..255] == head[..255]; }
  }

  lemma LastSlashIs(path: string, i: int)
    requires -1 <= i < |path| && (i >= 0 ==> path[i] == '/') && forall k :: i < k < |path| ==> path[k] != '/'
    ensures LastSlash(path) == i
  {
    SkipNameIs(path, |path| - 1);
  }

  lemma BasenameNotEmpty(path: string)
    requires path != ""
    ensures Basename(path) != ""
  {
    SkipSlashesIs(path, |path| - 1);
    SkipNameIs(path, SkipSlashes(path, |path| - 1));
  }

  ghost predicate IsDirectory(s: Store, d: Ptr) {
    d != NULL && d in s && s[d].kind == Dir
  }

  /** Which fault gives which error: a path that leads somewhere exists already, one
      whose slash is not behind a directory has an invalid parent; no path has an
      invalid name. */
  lemma MkdirOutcomeIs(s: Store, root: Ptr, path: string, cur: Ptr)
    ensures MkdirOutcome(s, root, path, cur) ==
      if path == "" then MissingOperand
      else if Resolve(s, root, path, cur) != NULL then AlreadyExists
      else if '/' in path && !IsDirectory(s, MkdirParent(s, root, path, cur)) then InvalidParent
      else Created
  {
    if path != "" { BasenameNotEmpty(path); }
    SkipNameIs(path, |path| - 1);
    if '/' in path {
      var k :| 0 <= k < |path| && path[k] == '/';
      assert LastSlash(path) >= k;
    }
  }

  function Relative(path: string): string {
    if path != "" && path[0] == '/' then path[1..] else path
  }

  /** d has a free child slot. */
  predicate RoomIn(s: Store, d: Ptr) {
    d in s ==> s[d].count < MAX_CHILDREN
  }

  /** `node` is the address malloc returns for the new directory. The parent found
      must have a free slot, and no name may outgrow its 32 bytes. */
  method ShcMkdir(fs: FileSystem, currentDir: Ptr, path: string, owner: nat, node: Ptr) returns (r: MkdirResult)
    requires fs.Valid({}) && fs.root in fs.nodes && currentDir in fs.nodes && fs.nodes[currentDir].kind == Dir
    requires NUL !in path && ShortComponents(Relative(path))
    requires node !in fs.nodes && node != NULL
    requires MkdirOutcome(fs.nodes, fs.root, path, currentDir) == Created ==>
      RoomIn(fs.nodes, MkdirParent(fs.nodes, fs.root, path, currentDir))
    modifies fs
    ensures fs.Valid({}) && fs.root == old(fs.root)
    ensures r == MkdirOutcome(old(fs.nodes), fs.root, path, currentDir)
    ensures r != Created ==> fs.nodes == old(fs.nodes) && fs.depth == old(fs.depth)
    ensures r == Created ==>
      MadeDir(old(fs.nodes), old(fs.depth), MkdirParent(old(fs.nodes), fs.root, path, currentDir),
              node, Basename(path), owner, fs.nodes, fs.depth)
  {
    if path == "" { return MissingOperand; }
    var name := FsBasename(path);
    if name == "" { return InvalidName; }
    var existing := EmulatedFsResolve(fs, path, currentDir, {});
    if existing != NULL { return AlreadyExists; }
    var parent := FindParent(fs, currentDir, path);
    if parent == NULL { return InvalidParent; }
    assert MkdirOutcome(fs.nodes, fs.root, path, currentDir) == Created;
    AddDirectory(fs, parent, name, owner, node);
    return Created;
  }

  /** Lines 203-216: NULL when what precedes the last slash is no directory. */
  method FindParent(fs: FileSystem, currentDir: Ptr, path: string) returns (parent: Ptr)
    requires fs.Valid({}) && fs.root in fs.nodes && currentDir in fs.nodes && fs.nodes[currentDir].kind == Dir
    requires NUL !in path && ShortComponents(Relative(path))
    ensures parent != NULL ==>
      parent == MkdirParent(fs.nodes, fs.root, path, currentDir) && parent in fs.nodes && fs.nodes[parent].kind == Dir
    ensures parent == NULL ==>
      var p := MkdirParent(fs.nodes, fs.root, path, currentDir);
      LastSlash(path) >= 0 && (p == NULL || p !in fs.nodes || fs.nodes[p].kind != Dir)
  {
    parent := currentDir;
    var lastSlash := FindLastSlash(path);
    if lastSlash >= 0 {
      var len := if lastSlash < 255 then lastSlash else 255;
      ShortRelativePrefix(path, len);
      WalkIn(fs.nodes, fs.depth, {}, fs.root, Relative(path[..len]));
      WalkIn(fs.nodes, fs.depth, {}, currentDir, path[..len]);
      parent := EmulatedFsResolve(fs, path[..len], currentDir, {});
      if parent == NULL || fs.nodes[parent].kind != Dir { return NULL; }
    }
  }

  method FindLastSlash(path: string) returns (last: int)
    ensures last == LastSlash(path)
  {
    last := -1;
    for i := 0 to |path|
      invariant -1 <= last < i && (last >= 0 ==> path[last] == '/')
      invariant forall k :: last < k < i ==> path[k] != '/'
    {
      if path[i] == '/' { last := i; }
    }
    SkipNameIs(path, |path| - 1);
  }

  /** t is s with a fresh directory as last child of p, one level below it. */
  ghost predicate MadeDir(s: Store, depth: map<Ptr, nat>, p: Ptr, node: Ptr, name: string, owner: nat,
                          t: Store, depth': map<Ptr, nat>)
  {
    && Addable(s, p, node, FreshDir(name, p, owner)) && p in depth
    && t == WithChild(s, p, node, FreshDir(name, p, owner))
    && depth' == depth[node := depth[p] + 1]
  }

  /** Lines 217-218. */
  method AddDirectory(fs: FileSystem, parent: Ptr, name: string, owner: nat, node: Ptr)
    requires fs.Valid({}) && parent in fs.nodes && fs.nodes[parent].kind == Dir
    requires fs.nodes[parent].count < MAX_CHILDREN && node !in fs.nodes && node != NULL
    modifies fs
    ensures fs.Valid({}) && fs.root == old(fs.root)
    ensures MadeDir(old(fs.nodes), old(fs.depth), parent, node, name, owner, fs.nodes, fs.depth)
  {
    NodeOk(fs.nodes, fs.depth, {}, parent);
    WithChildTree(fs.nodes, fs.depth, parent, node, FreshDir(name, parent, owner));
    ghost var s, depth, height := fs.nodes, fs.depth, fs.height;
    fs.FsCreateDirNode(name, parent, owner, node);
    fs.FsAddChild(parent, node);
    assert fs.nodes == WithChild(s, parent, node, FreshDir(name, parent, owner));
  }

  // ----- What mkdir achieves -----

  function AfterMkdir(s: Store, p: Ptr, node: Ptr, name: string, owner: nat): Store
    requires p in s && s[p].count < |s[p].slots|
  {
    WithChild(s, p, node, FreshDir(name, p, owner))
  }

  /** A new last child with a good name nobody there has keeps the naming. */
  lemma {:induction false} NewNameKeeps(s: Store, depth: map<Ptr, nat>, root: Ptr, p: Ptr, node: Ptr, name: string, owner: nat)
    requires NamedTree(s, depth, root) && Addable(s, p, node, FreshDir(name, p, owner)) && p in depth
    requires GoodName(name) && FindIn(s, p, name) == NULL
    ensures NamedTree(AfterMkdir(s, p, node, name, owner), depth[node := depth[p] + 1], root)
  {
    var t := AfterMkdir(s, p, node, name, owner);
    var newDir := FreshDir(name, p, owner);
    WithChildTree(s, depth, p, node, newDir);
    WithChildAt(s, p, node, newDir);
    NodeOk(s, depth, {}, p);
    NotFound(s, p, name, 0);
    forall d | d in t
      ensures Sized(t[d]) && ChildrenAgree(t, d) && NamedWell(t, d)
    {
      NodeOk(t, depth[node := depth[p] + 1], {}, d);
      if d != node {
        assert ChildrenAgree(s, d);
        assert NamedWell(s, d);
        NamesSurvive(s, t, p, node, d);
      }
    }
  }

  /** The last component fits the 32 bytes of a name. */
  predicate NameFits(path: string) {
    |Basename(path)| <= 31 && NUL !in path
  }

  /** The name a mkdir takes is good and new where it lands, for every path whose last
      slash the parent buffer holds and is not the first character. */
  lemma {:induction false} CreatedStep(s: Store, depth: map<Ptr, nat>, root: Ptr, path: string, cur: Ptr)
    requires NamedTree(s, depth, root) && cur in s && s[cur].kind == Dir
    requires NameFits(path)
    requires MkdirOutcome(s, root, path, cur) == Created && LastSlash(path) != 0 && LastSlash(path) <= 255
    ensures var p := MkdirParent(s, root, path, cur);
      p in s && s[p].kind == Dir && GoodName(Basename(path)) && FindIn(s, p, Basename(path)) == NULL
  {
    var last, p, name := LastSlash(path), MkdirParent(s, root, path, cur), Basename(path);
    if last < 0 {
      SkipNameIs(path, |path| - 1);
      CutOfName(path);
      assert path[0..] == path;
    } else {
      CreatedSplits(s, root, path, cur);
      ResolveComposes(s, root, path[..last], name, cur);
      CutOfName(name);
    }
    assert Step(s, p, name) == NULL;
    assert |name| <= 31;
  }

  /** mkdir keeps sibling names good and unique, and the path it was given leads to
      the new directory, unless the path's only slash is its first character (or
      its last slash lies past the 255 characters the parent buffer holds). */
  lemma {:induction false} MkdirKeepsNames(s: Store, depth: map<Ptr, nat>, root: Ptr, path: string, cur: Ptr, p: Ptr, node: Ptr, owner: nat)
    requires NamedTree(s, depth, root) && cur in s && s[cur].kind == Dir
    requires NameFits(path)
    requires MkdirOutcome(s, root, path, cur) == Created && p == MkdirParent(s, root, path, cur)
    requires LastSlash(path) != 0 && LastSlash(path) <= 255
    requires p in s ==> Addable(s, p, node, FreshDir(Basename(path), p, owner))
    ensures p in s && Sized(s[p]) && p in depth
    ensures NamedTree(AfterMkdir(s, p, node, Basename(path), owner), depth[node := depth[p] + 1], root)
    ensures Resolve(AfterMkdir(s, p, node, Basename(path), owner), root, path, cur) == node
  {
    CreatedStep(s, depth, root, path, cur);
    HasDepth(s, depth);
    NewNameKeeps(s, depth, root, p, node, Basename(path), owner);
    NewChildFound(s, depth, p, node, Basename(path), owner);
    NewPathLeads(s, depth, root, path, cur, p, node, owner);
  }

  /** For every path with a slash behind its first character, however long: the path
      leads to the new directory exactly when what precedes its last slash then leads
      to the parent and the name was new there. If that led anywhere before, it must
      have led to the parent, the truncated prefix of the path. */
  lemma LongPathIff(s: Store, depth: map<Ptr, nat>, root: Ptr, path: string, cur: Ptr, p: Ptr, node: Ptr, owner: nat)
    requires NamedTree(s, depth, root) && p in depth && LastSlash(path) > 0 && GoodName(Basename(path))
    requires MkdirOutcome(s, root, path, cur) == Created && p == MkdirParent(s, root, path, cur)
    requires Addable(s, p, node, FreshDir(Basename(path), p, owner))
    ensures var t := AfterMkdir(s, p, node, Basename(path), owner); var front := path[..LastSlash(path)];
      (Resolve(t, root, path, cur) == node <==>
        Resolve(t, root, front, cur) == p && FindIn(s, p, Basename(path)) == NULL) &&
      (Resolve(s, root, front, cur) != NULL ==>
        (Resolve(t, root, path, cur) == node <==> Resolve(s, root, front, cur) == p))
  {
    var name, front := Basename(path), path[..LastSlash(path)];
    var t := AfterMkdir(s, p, node, name, owner);
    NameAtEnd(path);
    CutOfName(name);
    ResolveComposes(t, root, front, name, cur);
    ResolveComposes(s, root, front, name, cur);
    OnlyFromParent(s, depth, p, node, name, owner, Resolve(t, root, front, cur));
    if Resolve(s, root, front, cur) != NULL {
      WalkGrows(s, depth, p, node, name, owner, if path[0] == '/' then root else cur, Relative(front));
    }
  }

  /** With only a leading slash, "/x", the parent path is empty and the directory
      goes into the current one: the tree stays well named exactly when the current
      directory has no x, and the path leads to it exactly from the root. */
  lemma {:induction false} LeadingSlashOnly(s: Store, depth: map<Ptr, nat>, root: Ptr, path: string, cur: Ptr, node: Ptr, owner: nat)
    requires NamedTree(s, depth, root) && cur in s && s[cur].kind == Dir && s[cur].count < MAX_CHILDREN
    requires NameFits(path) && node !in s && node != NULL
    requires MkdirOutcome(s, root, path, cur) == Created && LastSlash(path) == 0
    ensures MkdirParent(s, root, path, cur) == cur && Sized(s[cur]) && cur in depth
    ensures var t := AfterMkdir(s, cur, node, Basename(path), owner);
      (NamedTree(t, depth[node := depth[cur] + 1], root) <==> FindIn(s, cur, Basename(path)) == NULL) &&
      (Resolve(t, root, path, cur) == node <==> cur == root)
  {
    NodeOk(s, depth, {}, cur);
    assert ParentPath(path) == "";
    WalkEmpty(s, cur);
    LeadingName(s, root, path, cur);
    var name := Basename(path);
    if FindIn(s, cur, name) == NULL {
      NewNameKeeps(s, depth, root, cur, node, name, owner);
    } else {
      Clash(s, depth, root, cur, node, name, owner);
    }
    LeadingResolve(s, depth, root, path, cur, node, name, owner);
  }

  /** Whatever the path, a mkdir that goes through (see ShcMkdir: it then enters its
      name under the directory p it found) keeps the tree well named exactly when
      the name is a good one and new there. */
  lemma MkdirNamesIff(s: Store, depth: map<Ptr, nat>, root: Ptr, p: Ptr, node: Ptr, name: string, owner: nat)
    requires NamedTree(s, depth, root) && Addable(s, p, node, FreshDir(name, p, owner)) && p in depth
    ensures NamedTree(AfterMkdir(s, p, node, name, owner), depth[node := depth[p] + 1], root) <==>
      GoodName(name) && FindIn(s, p, name) == NULL
  {
    if FindIn(s, p, name) != NULL {
      Clash(s, depth, root, p, node, name, owner);
    } else if GoodName(name) {
      NewNameKeeps(s, depth, root, p, node, name, owner);
    } else {
      BadName(s, depth, root, p, node, name, owner);
    }
  }

  /** So it is for a lone leading slash, from the root. */
  lemma RootNameIsNew(s: Store, root: Ptr, path: string)
    requires root in s && NULL !in s && s[root].kind == Dir && NameFits(path)
    requires MkdirOutcome(s, root, path, root) == Created && LastSlash(path) == 0
    ensures MkdirParent(s, root, path, root) == root
    ensures GoodName(Basename(path)) && FindIn(s, root, Basename(path)) == NULL
  {
    LeadingName(s, root, path, root);
    LeadingParent(s, root, path, root);
  }

  // ----- mkdir /x, in a directory with an x -----

  function OneChild(name: string, parent: Ptr, child: Ptr): Node {
    FreshDir(name, parent, 0).(slots := seq(MAX_CHILDREN, i => if i == 0 then child else NULL), count := 1)
  }

  /** /d/x, nodes 1, 2 and 3. */
  function SmallTree(): Store {
    map[1 := OneChild("/", NULL, 2), 2 := OneChild("d", 1, 3), 3 := FreshDir("x", 2, 0)]
  }

  function SmallDepth(): map<Ptr, nat> {
    map[1 := 0, 2 := 1, 3 := 2]
  }

  /** All that NamedTree says of one node. */
  ghost predicate NodeGood(s: Store, depth: map<Ptr, nat>, p: Ptr)
    requires p in s
  {
    && Sized(s[p]) && ChildrenAgree(s, p) && NamedWell(s, p)
    && ParentStored(s, p) && Listed(s, p) && Deeper(s, depth, p)
  }

  lemma AllNodesGood(s: Store, depth: map<Ptr, nat>, root: Ptr)
    requires NULL !in s && root in s && s[root].parent == NULL && s[root].kind == Dir
    requires forall p :: p in s ==> NodeGood(s, depth, p)
    ensures NamedTree(s, depth, root)
  {
    forall p | p in s
      ensures Sized(s[p]) && ChildrenAgree(s, p) && NamedWell(s, p)
      ensures ParentStored(s, p) && Listed(s, p) && Deeper(s, depth, p)
    {
      assert NodeGood(s, depth, p);
    }
  }

  lemma SmallTreeOk()
    ensures NamedTree(SmallTree(), SmallDepth(), 1)
  {
    SmallNodes(SmallTree(), SmallDepth());
    AllNodesGood(SmallTree(), SmallDepth(), 1);
  }

  lemma SmallNodes(s: Store, depth: map<Ptr, nat>)
    requires s == SmallTree() && depth == SmallDepth()
    ensures s.Keys == {1, 2, 3} && NodeGood(s, depth, 1) && NodeGood(s, depth, 2) && NodeGood(s, depth, 3)
  {
    SmallChildren();
  }

  /** From /d the command goes through and puts a second x beside the first. */
  lemma {:induction false} SecondX()
    ensures MkdirOutcome(SmallTree(), 1, "/x", 2) == Created && MkdirParent(SmallTree(), 1, "/x", 2) == 2
    ensures FindIn(SmallTree(), 2, "x") == 3
    ensures !NamedTree(AfterMkdir(SmallTree(), 2, 4, "x", 0), SmallDepth()[4 := 2], 1)
  {
    SmallTreeOk();
    SmallFinds(SmallTree());
    SlashX(SmallTree(), 1, 2);
    LeadingSlashOnly(SmallTree(), SmallDepth(), 1, "/x", 2, 4, 0);
  }

  // ----- mkdir with a path longer than the parent buffer -----

  function Slashes(n: nat): string {
    seq(n, _ => '/')
  }

  /** 256 slashes and d/y: what is cut off behind 255 characters is the root, so y is
      made there, and the path does not lead to it. */
  lemma LongPathStrays(path: string, owner: nat)
    requires path == Slashes(256) + "d/y"
    ensures MkdirOutcome(SmallTree(), 1, path, 2) == Created && MkdirParent(SmallTree(), 1, path, 2) == 1
    ensures Resolve(AfterMkdir(SmallTree(), 1, 4, "y", owner), 1, path, 2) != 4
  {
    var s := SmallTree();
    LongParts(path);
    LongWalks(s, path);
    SmallTreeOk();
    LongPathIff(s, SmallDepth(), 1, path, 2, 1, 4, owner);
  }

  // ----- rm -----

  datatype RmResult = NoOperand | NoSuchFile | Omitted | IsRoot | Removed

  function RmOutcome(s: Store, root: Ptr, path: string, cur: Ptr, yes: bool): RmResult {
    var n := Resolve(s, root, path, cur);
    if path == "" then NoOperand
    else if n == NULL || n !in s then NoSuchFile
    else if s[n].kind == Dir && !yes then Omitted
    else if s[n].parent == NULL then IsRoot
    else Removed
  }

  /** A file goes without a question, a directory only on "yes", the top never; what
      the path does not lead to cannot be omitted. */
  lemma RmOutcomeIs(s: Store, root: Ptr, path: string, cur: Ptr, yes: bool)
    requires Resolve(s, root, path, cur) != NULL ==> Resolve(s, root, path, cur) in s
    ensures var n, r := Resolve(s, root, path, cur), RmOutcome(s, root, path, cur, yes);
      && (r == NoOperand <==> path == "")
      && (r == NoSuchFile <==> path != "" && n == NULL)
      && (r == Removed <==> path != "" && n != NULL && (IsDirectory(s, n) ==> yes) && s[n].parent != NULL)
      && (r == IsRoot <==> path != "" && n != NULL && (IsDirectory(s, n) ==> yes) && s[n].parent == NULL)
      && (r == Omitted <==> path != "" && IsDirectory(s, n) && !yes)
  {
  }

  /** `yes` is the answer to the question asked before a directory goes. */
  method ShcRm(fs: FileSystem, currentDir: Ptr, path: string, yes: bool) returns (r: RmResult)
    requires fs.Valid({}) && fs.root in fs.nodes && currentDir in fs.nodes
    requires NUL !in path && ShortComponents(Relative(path))
    modifies fs`nodes
    ensures fs.Valid({})
    ensures r == RmOutcome(old(fs.nodes), fs.root, path, currentDir, yes)
    ensures r != Removed ==> fs.nodes == old(fs.nodes)
    ensures r == Removed ==>
      var n := Resolve(old(fs.nodes), fs.root, path, currentDir);
      n in old(fs.nodes) && Pruned(old(fs.nodes), fs.depth, n, fs.nodes)
  {
    if path == "" { return NoOperand; }
    var node := EmulatedFsResolve(fs, path, currentDir, {});
    WalkIn(fs.nodes, fs.depth, {}, fs.root, Relative(path));
    WalkIn(fs.nodes, fs.depth, {}, currentDir, path);
    if node == NULL { return NoSuchFile; }
    if fs.nodes[node].kind == Dir && !yes { return Omitted; }
    var removed := fs.Remove(node);
    return if removed then Removed else IsRoot;
  }

  // ----- Whole runs of mkdir and rm -----

  lemma PruneKeepsNames(s: Store, depth: map<Ptr, nat>, root: Ptr, n: Ptr, t: Store)
    requires NamedTree(s, depth, root) && n in s && s[n].parent != NULL && Pruned(s, depth, n, t)
    ensures NamedTree(t, depth, root)
  {
    PrunedTree(s, depth, {}, n, t);
    NodeOk(s, depth, {}, n);
    forall x | x in t
      ensures x in s && t[x].name == s[x].name && t[x].kind == s[x].kind && t[x].parent == s[x].parent
    {
    }
    forall d | d in t
      ensures Sized(t[d]) && ChildrenAgree(t, d) && NamedWell(t, d)
    {
      NodeOk(t, depth, {}, d);
      NamedAt(s, depth, root, d);
      PrunedNames(s, n, t, d);
    }
  }

  /** A well-named tree in which every node hangs under the root. */
  ghost predicate Rooted(s: Store, depth: map<Ptr, nat>, root: Ptr) {
    NamedTree(s, depth, root) && forall n :: n in s ==> Under(s, depth, root, n)
  }

  /** A tree of nodes with good names, unique or not, all hanging under the root. */
  ghost predicate Attached(s: Store, depth: map<Ptr, nat>, root: Ptr) {
    && Tree(s, depth, {})
    && root in s && s[root].parent == NULL && s[root].kind == Dir
    && (forall n :: n in s ==> Under(s, depth, root, n))
    && (forall n :: n in s && n != root ==> GoodName(s[n].name))
  }

  /** Each node from n up to the root is the first of its name in its directory. */
  predicate FirstOfNames(s: Store, depth: map<Ptr, nat>, n: Ptr)
    decreases if n in depth then depth[n] else 0
  {
    n !in s || s[n].parent == NULL ||
    (Step(s, s[n].parent, s[n].name) == n &&
     n in depth && s[n].parent in depth && depth[s[n].parent] < depth[n] && FirstOfNames(s, depth, s[n].parent))
  }

  /** Under the name of n only its own parent can have n. */
  lemma FoundOnlyAtHome(s: Store, depth: map<Ptr, nat>, r: Ptr, n: Ptr)
    requires Tree(s, depth, {}) && n in s && GoodName(s[n].name) && Step(s, r, s[n].name) == n
    ensures r == s[n].parent
  {
    if r in s {
      NodeOk(s, depth, {}, r);
      FindFromIn(s, r, s[n].name, 0);
    }
  }

  lemma {:induction false} WalkBackIff(s: Store, depth: map<Ptr, nat>, root: Ptr, n: Ptr)
    requires Attached(s, depth, root) && n in s && n != root
    ensures var path := PathOf(s, depth, n);
      path != "" && path[0] == '/' && (Walk(s, root, path[1..]) == n <==> FirstOfNames(s, depth, n))
    decreases if n in depth then depth[n] else 0
  {
    NodeOk(s, depth, {}, n);
    assert Under(s, depth, root, n);
    var p, name := s[n].parent, s[n].name;
    var up := PathOf(s, depth, p);
    CutOfName(name);
    if p == root {
      assert up == "";
      assert PathOf(s, depth, n) == "/" + name;
      assert PathOf(s, depth, n)[1..] == name;
    } else {
      WalkBackIff(s, depth, root, p);
      assert PathOf(s, depth, n) == up + "/" + name;
      assert PathOf(s, depth, n)[1..] == up[1..] + "/" + name;
      WalkJoin(s, root, up[1..], name);
      var r := Walk(s, root, up[1..]);
      if r != NULL && Step(s, r, name) == n { FoundOnlyAtHome(s, depth, r, n); }
    }
  }

  /** With names that clash: the printed path of a node leads back to it if and only
      if the node and everything above it are the first of their names. */
  lemma PrintsBackIff(s: Store, depth: map<Ptr, nat>, root: Ptr, n: Ptr, anywhere: Ptr)
    requires Attached(s, depth, root) && n in s
    ensures Resolve(s, root, Printed(s, depth, n), anywhere) == n <==> FirstOfNames(s, depth, n)
  {
    if n == root {
      assert PathOf(s, depth, n) == "" && "/"[1..] == "";
    } else {
      WalkBackIff(s, depth, root, n);
    }
  }

  datatype Command = Mkdir(path: string, cur: Ptr, owner: nat, node: Ptr) | Rm(target: Ptr)

  datatype Snapshot = Snapshot(s: Store, depth: map<Ptr, nat>)

  /** What a command may be given: rm any node; mkdir an existing current directory
      and an unused address, and if it goes through, a good name and room in the
      parent it finds. */
  ghost predicate Applies(a: Snapshot, root: Ptr, c: Command) {
    match c
    case Mkdir(path, cur, owner, node) =>
      && cur in a.s && a.s[cur].kind == Dir && node !in a.s && node != NULL
      && (MkdirOutcome(a.s, root, path, cur) == Created ==>
            GoodName(Basename(path)) && RoomIn(a.s, MkdirParent(a.s, root, path, cur)))
    case Rm(target) => target in a.s
  }

  /** The name a mkdir takes is new where it lands. */
  ghost predicate NewName(a: Snapshot, root: Ptr, c: Command) {
    c.Mkdir? && MkdirOutcome(a.s, root, c.path, c.cur) == Created ==>
      var p := MkdirParent(a.s, root, c.path, c.cur);
      p in a.s && FindIn(a.s, p, Basename(c.path)) == NULL
  }

  ghost predicate Leads(a: Snapshot, root: Ptr, c: Command, b: Snapshot) {
    match c
    case Mkdir(path, cur, owner, node) =>
      if MkdirOutcome(a.s, root, path, cur) != Created then b == a
      else MadeDir(a.s, a.depth, MkdirParent(a.s, root, path, cur), node, Basename(path), owner, b.s, b.depth)
    case Rm(target) =>
      if target !in a.s || a.s[target].parent == NULL then b == a
      else b.depth == a.depth && Pruned(a.s, a.depth, target, b.s)
  }

  /** The trees a run of commands passes through. */
  ghost predicate IsRun(trees: seq<Snapshot>, root: Ptr, cs: seq<Command>) {
    && |trees| == |cs| + 1
    && forall i :: 0 <= i < |cs| ==> Applies(trees[i], root, cs[i]) && Leads(trees[i], root, cs[i], trees[i + 1])
  }

  lemma RunPrefix(trees: seq<Snapshot>, root: Ptr, cs: seq<Command>)
    requires IsRun(trees, root, cs) && cs != []
    ensures IsRun(trees[..|cs|], root, cs[..|cs| - 1])
    ensures Applies(trees[|cs| - 1], root, cs[|cs| - 1]) && Leads(trees[|cs| - 1], root, cs[|cs| - 1], trees[|cs|])
  {
  }

  lemma UnderPruned(s: Store, depth: map<Ptr, nat>, root: Ptr, n: Ptr, t: Store)
    requires Tree(s, depth, {}) && Tree(t, depth, {}) && n in s && Pruned(s, depth, n, t)
    requires forall d :: d in s ==> Under(s, depth, root, d)
    ensures forall d :: d in t ==> Under(t, depth, root, d)
  {
    ReadsAncestors(t, depth, {});
    forall x | x in t
      ensures x in s && t[x].parent == s[x].parent
    {
    }
    forall d | d in t
      ensures Under(t, depth, root, d)
    {
      UnderStable(s, t, depth, root, d);
    }
  }

  lemma UnderMade(s: Store, depth: map<Ptr, nat>, root: Ptr, p: Ptr, node: Ptr, name: string, owner: nat,
                  t: Store, depth': map<Ptr, nat>)
    requires Tree(s, depth, {}) && MadeDir(s, depth, p, node, name, owner, t, depth')
    requires forall d :: d in s ==> Under(s, depth, root, d)
    ensures forall d :: d in t ==> Under(t, depth', root, d)
  {
    WithChildAt(s, p, node, FreshDir(name, p, owner));
    ReadsAncestors(s, depth, {});
    HasDepth(s, depth);
    forall x | x in s
      ensures x in t && t[x].parent == s[x].parent
    {
    }
    forall d | d in s
      ensures Under(t, depth', root, d)
    {
      UnderGrows(s, t, depth, depth', root, d);
    }
    assert t[node].parent == p && Under(t, depth', root, p);
  }

  /** rm keeps a tree with all its nodes attached. */
  lemma RmKeepsTree(s: Store, depth: map<Ptr, nat>, root: Ptr, n: Ptr, t: Store)
    requires Attached(s, depth, root) && n in s && s[n].parent != NULL && Pruned(s, depth, n, t)
    ensures Attached(t, depth, root)
  {
    PrunedTree(s, depth, {}, n, t);
    NodeOk(s, depth, {}, n);
    UnderPruned(s, depth, root, n, t);
    forall x | x in t
      ensures x in s && t[x].name == s[x].name && t[x].kind == s[x].kind && t[x].parent == s[x].parent
    {
    }
  }

  /** So does a mkdir with a good name, new where it lands or not. */
  lemma MadeKeepsTree(s: Store, depth: map<Ptr, nat>, root: Ptr, p: Ptr, node: Ptr, name: string, owner: nat,
                      t: Store, depth': map<Ptr, nat>)
    requires Attached(s, depth, root) && MadeDir(s, depth, p, node, name, owner, t, depth') && GoodName(name)
    ensures Attached(t, depth', root)
  {
    WithChildTree(s, depth, p, node, FreshDir(name, p, owner));
    WithChildAt(s, p, node, FreshDir(name, p, owner));
    UnderMade(s, depth, root, p, node, name, owner, t, depth');
  }

  /** rm keeps a well-named tree with every node attached to the root. */
  lemma {:induction false} RmKeeps(s: Store, depth: map<Ptr, nat>, root: Ptr, n: Ptr, t: Store)
    requires Rooted(s, depth, root) && n in s && s[n].parent != NULL && Pruned(s, depth, n, t)
    ensures Rooted(t, depth, root)
  {
    PruneKeepsNames(s, depth, root, n, t);
    UnderPruned(s, depth, root, n, t);
  }

  /** So does a mkdir whose name is good and new where it lands. */
  lemma MadeKeeps(s: Store, depth: map<Ptr, nat>, root: Ptr, p: Ptr, node: Ptr, name: string, owner: nat,
                  t: Store, depth': map<Ptr, nat>)
    requires Rooted(s, depth, root) && MadeDir(s, depth, p, node, name, owner, t, depth')
    requires GoodName(name) && FindIn(s, p, name) == NULL
    ensures Rooted(t, depth', root)
  {
    NewNameKeeps(s, depth, root, p, node, name, owner);
    UnderMade(s, depth, root, p, node, name, owner, t, depth');
  }

  /** What Applies and Leads say of a mkdir that goes through. */
  lemma MkdirCase(a: Snapshot, root: Ptr, path: string, cur: Ptr, owner: nat, node: Ptr, b: Snapshot)
    requires Applies(a, root, Mkdir(path, cur, owner, node)) && Leads(a, root, Mkdir(path, cur, owner, node), b)
    requires MkdirOutcome(a.s, root, path, cur) == Created
    ensures GoodName(Basename(path))
    ensures MadeDir(a.s, a.depth, MkdirParent(a.s, root, path, cur), node, Basename(path), owner, b.s, b.depth)
  {
  }

  /** Every run keeps a tree with all nodes attached; the printed path of each leads
      back to it if and only if it and all above it are the first of their names. */
  lemma {:induction false} RunKeepsTree(trees: seq<Snapshot>, root: Ptr, cs: seq<Command>)
    requires IsRun(trees, root, cs) && Attached(trees[0].s, trees[0].depth, root)
    ensures var last := trees[|cs|];
      Attached(last.s, last.depth, root) && forall n, anywhere :: n in last.s ==>
        (Resolve(last.s, root, Printed(last.s, last.depth, n), anywhere) == n <==> FirstOfNames(last.s, last.depth, n))
    decreases |cs|
  {
    var last := trees[|cs|];
    if cs != [] {
      var a, n := trees[|cs| - 1], |cs| - 1;
      RunPrefix(trees, root, cs);
      RunKeepsTree(trees[..|cs|], root, cs[..n]);
      match cs[n]
      case Rm(target) =>
        if a.s[target].parent != NULL { RmKeepsTree(a.s, a.depth, root, target, last.s); }
      case Mkdir(path, cur, owner, node) =>
        if MkdirOutcome(a.s, root, path, cur) == Created {
          MkdirCase(a, root, path, cur, owner, node, last);
          MadeKeepsTree(a.s, a.depth, root, MkdirParent(a.s, root, path, cur), node, Basename(path), owner, last.s, last.depth);
        }
    }
    forall n, anywhere | n in last.s
      ensures Resolve(last.s, root, Printed(last.s, last.depth, n), anywhere) == n <==> FirstOfNames(last.s, last.depth, n)
    {
      PrintsBackIff(last.s, last.depth, root, n, anywhere);
    }
  }

  /** The last slash of a mkdir's path, if any, fits the parent buffer and does not
      lead the path; then its name is new (see CreatedStep). */
  predicate Ordinary(c: Command) {
    c.Mkdir? ==> NameFits(c.path) && LastSlash(c.path) != 0 && LastSlash(c.path) <= 255
  }

  lemma OrdinaryIsNew(a: Snapshot, root: Ptr, c: Command)
    requires Rooted(a.s, a.depth, root) && Applies(a, root, c) && Ordinary(c)
    ensures NewName(a, root, c)
  {
    if c.Mkdir? && MkdirOutcome(a.s, root, c.path, c.cur) == Created {
      CreatedStep(a.s, a.depth, root, c.path, c.cur);
    }
  }

  lemma {:induction false} RunRooted(trees: seq<Snapshot>, root: Ptr, cs: seq<Command>)
    requires IsRun(trees, root, cs) && Rooted(trees[0].s, trees[0].depth, root)
    requires forall i :: 0 <= i < |cs| ==> Ordinary(cs[i]) || NewName(trees[i], root, cs[i])
    ensures Rooted(trees[|cs|].s, trees[|cs|].depth, root)
    decreases |cs|
  {
    if cs != [] {
      var n := |cs| - 1;
      var a, b := trees[n], trees[n + 1];
      RunPrefix(trees, root, cs);
      RunRooted(trees[..|cs|], root, cs[..n]);
      if Ordinary(cs[n]) { OrdinaryIsNew(a, root, cs[n]); }
      assert NewName(a, root, cs[n]);
      match cs[n]
      case Rm(target) =>
        if a.s[target].parent != NULL { RmKeeps(a.s, a.depth, root, target, b.s); }
      case Mkdir(path, cur, owner, node) =>
        if MkdirOutcome(a.s, root, path, cur) == Created {
          MkdirCase(a, root, path, cur, owner, node, b);
          MadeKeeps(a.s, a.depth, root, MkdirParent(a.s, root, path, cur), node, Basename(path), owner, b.s, b.depth);
        }
    }
  }

  /** After any run of mkdir and rm commands with ordinary paths, or else with names new
      where they land, every node still has a path of its own that leads back to it from anywhere. */
  lemma RunKeepsPaths(trees: seq<Snapshot>, root: Ptr, cs: seq<Command>, n: Ptr, anywhere: Ptr)
    requires IsRun(trees, root, cs) && Rooted(trees[0].s, trees[0].depth, root) && n in trees[|cs|].s
    requires forall i :: 0 <= i < |cs| ==> Ordinary(cs[i]) || NewName(trees[i], root, cs[i])
    ensures var last := trees[|cs|];
      Rooted(last.s, last.depth, root) && Resolve(last.s, root, Printed(last.s, last.depth, n), anywhere) == n
  {
    RunRooted(trees, root, cs);
    PrintThenResolve(trees[|cs|].s, trees[|cs|].depth, root, n, anywhere);
  }

  // ----- Steps of the proofs above -----

  lemma CutOfJoin(p: string, q: string)
    ensures Cut(p + "/" + q, '/') == Cut(p, '/')
  {
    var k := Cut(p, '/');
    assert forall j :: 0 <= j < k ==> (p + "/" + q)[j] == p[j];
    CutIs(p + "/" + q, '/', k);
  }

  lemma {:induction false} FindFromIn(s: Store, d: Ptr, name: string, i: nat)
    requires d in s && Sized(s[d])
    ensures var r := FindFrom(s, d, name, i);
      r != NULL ==> r in s && s[r].name == name && r in Children(s[d])
    decreases s[d].count - i
  {
    if i < s[d].count {
      assert s[d].slots[i] in Children(s[d]);
      FindFromIn(s, d, name, i + 1);
    }
  }

  lemma StepIn(s: Store, depth: map<Ptr, nat>, loose: set<Ptr>, cur: Ptr, tok: string)
    requires Tree(s, depth, loose) && cur in s
    ensures Step(s, cur, tok) != NULL ==> Step(s, cur, tok) in s
  {
    NodeOk(s, depth, loose, cur);
    FindFromIn(s, cur, tok, 0);
  }

  lemma CharRead(path: string, left: string, i: nat, tok: string)
    requires Scanning(path, left, i, tok) && NUL !in path
    ensures i <= |path| && (i < |path| <==> |tok| < |left|)
    ensures i < |path| ==> path[i] == left[|tok|] != NUL
  {
    if i < |path| { assert path[i] in path; }
  }

  lemma ReadOn(path: string, left: string, i: nat, tok: string)
    requires Scanning(path, left, i, tok) && i < |path| && path[i] != '/'
    ensures |tok| < 31 && Scanning(path, left, i + 1, tok + [path[i]])
  {
    assert path[i] == left[|tok|];
    assert left[..|tok| + 1] == left[..|tok|] + [left[|tok|]];
  }

  lemma TokenEnds(s: Store, cur: Ptr, path: string, left: string, i: nat, tok: string)
    requires Scanning(path, left, i, tok) && (i < |path| ==> path[i] == '/') && i <= |path|
    ensures var next := Step(s, cur, tok);
      Walk(s, cur, left) == if i == |path| || next == NULL then next else Walk(s, next, left[|tok| + 1..])
    ensures i < |path| ==> Scanning(path, left[|tok| + 1..], i + 1, "")
  {
    assert i < |path| ==> left[|tok|] == path[i];
    CutIs(left, '/', |tok|);
    if i < |path| { ScanRest(path, left, i, tok); }
  }

  lemma SuffixRest(path: string, left: string, m: nat)
    requires |left| <= |path| && left == path[|path| - |left|..] && m <= |left|
    ensures left[m..] == path[|path| - (|left| - m)..]
  {
  }

  lemma ScanRest(path: string, left: string, i: nat, tok: string)
    requires Scanning(path, left, i, tok) && i < |path| && Cut(left, '/') == |tok| < |left|
    ensures Scanning(path, left[|tok| + 1..], i + 1, "")
  {
    SuffixRest(path, left, |tok| + 1);
    assert left[|tok| + 1..][..0] == "";
  }

  lemma {:induction false} FindByName(s: Store, p: Ptr, i: nat, from: nat)
    requires p in s && Sized(s[p]) && ChildrenAgree(s, p) && NamedWell(s, p)
    requires from <= i < s[p].count
    ensures FindFrom(s, p, s[Children(s[p])[i]].name, from) == Children(s[p])[i]
    decreases i - from
  {
    assert Children(s[p])[from] in Children(s[p]);
    if from < i {
      FindByName(s, p, i, from + 1);
    }
  }

  /** A child is what its parent finds under its name. */
  lemma ChildByName(s: Store, depth: map<Ptr, nat>, root: Ptr, c: Ptr)
    requires NamedTree(s, depth, root) && c in s && s[c].parent != NULL
    ensures GoodName(s[c].name)
    ensures s[c].parent in s && Step(s, s[c].parent, s[c].name) == c
    ensures c in depth && s[c].parent in depth && depth[s[c].parent] < depth[c]
  {
    NodeOk(s, depth, {}, c);
    var p := s[c].parent;
    NodeOk(s, depth, {}, p);
    var i :| 0 <= i < s[p].count && Children(s[p])[i] == c;
    FindByName(s, p, i, 0);
  }

  lemma CutOfName(n: string)
    requires '/' !in n
    ensures Cut(n, '/') == |n| && n[..|n|] == n
  {
    CutIs(n, '/', |n|);
  }

  lemma {:induction false} ShortJoin(p: string, q: string)
    ensures ShortComponents(p + "/" + q) <==> ShortComponents(p) && ShortComponents(q)
    decreases |p|
  {
    var k, all := Cut(p, '/'), p + "/" + q;
    CutOfJoin(p, q);
    assert k < |all|;
    if k == |p| {
      assert all[k + 1..] == q;
    } else {
      var rest := p[k + 1..];
      assert all[k + 1..] == rest + "/" + q;
      ShortJoin(rest, q);
    }
  }

  /** Below the root, the printed path minus its slash walks from the root to n. */
  lemma {:induction false} WalkPathOf(s: Store, depth: map<Ptr, nat>, root: Ptr, n: Ptr)
    requires NamedTree(s, depth, root) && n in s && Under(s, depth, root, n) && n != root
    ensures var path := PathOf(s, depth, n);
      path != "" && path[0] == '/' && NUL !in path &&
      ShortComponents(path[1..]) && Walk(s, root, path[1..]) == n
    decreases if n in depth then depth[n] else 0
  {
    ChildByName(s, depth, root, n);
    var p, name := s[n].parent, s[n].name;
    var up := PathOf(s, depth, p);
    CutOfName(name);
    NodeOk(s, depth, {}, p);
    if p == root {
      assert up == "";
      assert PathOf(s, depth, n) == "/" + name;
      assert PathOf(s, depth, n)[1..] == name;
    } else {
      WalkPathOf(s, depth, root, p);
      assert PathOf(s, depth, n) == up + "/" + name;
      assert PathOf(s, depth, n)[1..] == up[1..] + "/" + name;
      WalkJoin(s, root, up[1..], name);
      ShortJoin(up[1..], name);
    }
  }

  lemma WalkEmpty(s: Store, cur: Ptr)
    requires cur in s
    ensures Walk(s, cur, "") == cur
  {
    assert ""[..0] == "";
  }

  /** Walking token by token, as strtok cuts them. */
  lemma WalkRest(s: Store, cur: Ptr, left: string)
    requires left != "" && cur in s
    requires Step(s, cur, left[..Cut(left, '/')]) != NULL ==> Step(s, cur, left[..Cut(left, '/')]) in s
    ensures var tok := left[..Cut(left, '/')]; var next := Step(s, cur, tok);
      Walk(s, cur, left) == (if next == NULL then NULL else Walk(s, next, Rest(left, '/'))) &&
      '/' !in tok && Walk(s, cur, tok) == next
  {
    var tok := left[..Cut(left, '/')];
    CutOfName(tok);
    if Step(s, cur, tok) != NULL { WalkEmpty(s, Step(s, cur, tok)); }
  }

  lemma ShortToken(left: string)
    requires ShortComponents(left) && NUL !in left
    ensures var tok := left[..Cut(left, '/')];
      ShortComponents(tok) && NUL !in tok && ShortComponents(Rest(left, '/')) && NUL !in Rest(left, '/')
  {
    CutOfName(left[..Cut(left, '/')]);
  }

  lemma LastOfName(path: string, head: string, name: string, tail: string, last: nat)
    requires path == head + name + tail && '/' !in name && name != "" && last == |head| + |name| - 1
    requires head == "" || head[|head| - 1] == '/'
    requires forall k :: 0 <= k < |tail| ==> tail[k] == '/'
    ensures SkipSlashes(path, |path| - 1) == last && SkipName(path, last) == |head| - 1
  {
    assert path[last] == name[|name| - 1] && name[|name| - 1] in name;
    forall k | last < k < |path|
      ensures path[k] == '/'
    {
      assert path[k] == tail[k - last - 1];
    }
    forall k | |head| <= k <= last
      ensures path[k] != '/'
    {
      assert path[k] == name[k - |head|] && name[k - |head|] in name;
    }
    assert head != "" ==> path[|head| - 1] == '/';
    SkipSlashesIs(path, |path| - 1);
    SkipNameIs(path, last);
  }

  lemma {:induction false} ShortFront(s: string, a: string, b: string)
    requires s == a + b && ShortComponents(s)
    ensures ShortComponents(a)
    decreases |a|
  {
    var k := Cut(s, '/');
    CutOfFront(s, a, b);
    if k < |a| {
      FrontRest(s, a, b, k + 1);
      ShortFront(s[k + 1..], a[k + 1..], b);
    }
  }

  lemma {:induction false} CutOfFront(s: string, a: string, b: string)
    requires s == a + b
    ensures Cut(a, '/') == if Cut(s, '/') < |a| then Cut(s, '/') else |a|
  {
    var k := Cut(s, '/');
    assert forall j :: 0 <= j < |a| ==> a[j] == s[j];
    CutIs(a, '/', if k < |a| then k else |a|);
  }

  lemma FrontRest(s: string, a: string, b: string, k: nat)
    requires s == a + b && k <= |a|
    ensures s[k..] == a[k..] + b
  {
  }

  lemma {:induction false} ShortPrefix(p: string, n: nat)
    requires ShortComponents(p) && n <= |p|
    ensures ShortComponents(p[..n])
  {
    assert p == p[..n] + p[n..];
    ShortFront(p, p[..n], p[n..]);
  }

  lemma ShortRelativePrefix(p: string, n: nat)
    requires ShortComponents(Relative(p)) && n <= |p|
    ensures ShortComponents(Relative(p[..n]))
  {
    var m := if n > 0 && p[0] == '/' then n - 1 else n;
    ShortPrefix(Relative(p), m);
    assert Relative(p[..n]) == Relative(p)[..m];
  }

  lemma {:induction false} WalkIn(s: Store, depth: map<Ptr, nat>, loose: set<Ptr>, cur: Ptr, path: string)
    requires Tree(s, depth, loose) && cur in s
    ensures Walk(s, cur, path) != NULL ==> Walk(s, cur, path) in s
    decreases |path|
  {
    var k := Cut(path, '/');
    StepIn(s, depth, loose, cur, path[..k]);
    if k < |path| && Step(s, cur, path[..k]) != NULL {
      WalkIn(s, depth, loose, Step(s, cur, path[..k]), path[k + 1..]);
    }
  }

  lemma {:induction false} NotFound(s: Store, p: Ptr, name: string, from: nat)
    requires p in s && Sized(s[p]) && ChildrenAgree(s, p) && FindFrom(s, p, name, from) == NULL
    requires NULL !in s
    ensures forall i :: from <= i < s[p].count ==> s[Children(s[p])[i]].name != name
    decreases s[p].count - from
  {
    if from < s[p].count {
      assert Children(s[p])[from] in Children(s[p]);
      NotFound(s, p, name, from + 1);
    }
  }

  lemma {:induction false} NamesSurvive(s: Store, t: Store, p: Ptr, node: Ptr, d: Ptr)
    requires d in s && Sized(s[d]) && ChildrenAgree(s, d) && NamedWell(s, d)
    requires d in t && Sized(t[d]) && ChildrenAgree(t, d) && node in t && node !in s
    requires forall x :: x in s ==> x in t && t[x].name == s[x].name
    requires Children(t[d]) == Children(s[d]) + if d == p then [node] else []
    requires d == p ==> GoodName(t[node].name)
    requires d == p ==> forall i :: 0 <= i < s[d].count ==> s[Children(s[d])[i]].name != t[node].name
    ensures NamedWell(t, d)
  {
    var k, k' := Children(s[d]), Children(t[d]);
    forall i | 0 <= i < |k|
      ensures k[i] in s && t[k'[i]].name == s[k[i]].name
    {
      assert k[i] in k;
    }
  }

  lemma {:induction false} FindGrows(s: Store, t: Store, d: Ptr, name: string, i: nat)
    requires d in s && d in t && Sized(s[d]) && Sized(t[d]) && NULL !in s
    requires forall x :: x in s ==> x in t && t[x].name == s[x].name
    requires s[d].count <= t[d].count && t[d].slots[..s[d].count] == s[d].slots[..s[d].count]
    requires forall k :: 0 <= k < s[d].count ==> s[d].slots[k] in s
    requires FindFrom(s, d, name, i) != NULL
    ensures FindFrom(t, d, name, i) == FindFrom(s, d, name, i)
    decreases s[d].count - i
  {
    assert t[d].slots[..s[d].count][i] == s[d].slots[..s[d].count][i];
    if !(s[d].slots[i] in s && s[s[d].slots[i]].name == name) {
      FindGrows(s, t, d, name, i + 1);
    }
  }

  /** Whatever a path led to, it still leads to once a directory has been added. */
  lemma StepGrows(s: Store, depth: map<Ptr, nat>, p: Ptr, node: Ptr, name: string, owner: nat, cur: Ptr, tok: string)
    requires Tree(s, depth, {}) && Addable(s, p, node, FreshDir(name, p, owner)) && Step(s, cur, tok) != NULL
    ensures Step(AfterMkdir(s, p, node, name, owner), cur, tok) == Step(s, cur, tok)
  {
    WithChildAt(s, p, node, FreshDir(name, p, owner));
    NodeOk(s, depth, {}, cur);
    var t := AfterMkdir(s, p, node, name, owner);
    if tok != "" && tok != "." && tok != ".." {
      forall k | 0 <= k < s[cur].count ensures s[cur].slots[k] in s {
        assert Children(s[cur])[k] in Children(s[cur]);
      }
      FindGrows(s, t, cur, tok, 0);
    }
  }

  lemma {:induction false} WalkGrows(s: Store, depth: map<Ptr, nat>, p: Ptr, node: Ptr, name: string, owner: nat, cur: Ptr, path: string)
    requires Tree(s, depth, {}) && Addable(s, p, node, FreshDir(name, p, owner)) && Walk(s, cur, path) != NULL
    ensures Walk(AfterMkdir(s, p, node, name, owner), cur, path) == Walk(s, cur, path)
    decreases |path|
  {
    var k := Cut(path, '/');
    StepGrows(s, depth, p, node, name, owner, cur, path[..k]);
    if k < |path| {
      WalkGrows(s, depth, p, node, name, owner, Step(s, cur, path[..k]), path[k + 1..]);
    }
  }

  lemma NewChildFound(s: Store, depth: map<Ptr, nat>, p: Ptr, node: Ptr, name: string, owner: nat)
    requires Tree(s, depth, {}) && Addable(s, p, node, FreshDir(name, p, owner)) && p in depth
    requires GoodName(name) && FindIn(s, p, name) == NULL
    ensures Step(AfterMkdir(s, p, node, name, owner), p, name) == node
  {
    var t := AfterMkdir(s, p, node, name, owner);
    WithChildAt(s, p, node, FreshDir(name, p, owner));
    NodeOk(s, depth, {}, p);
    NotFound(s, p, name, 0);
    FindLast(s, t, p, node, name, 0);
  }

  lemma {:induction false} FindLast(s: Store, t: Store, p: Ptr, node: Ptr, name: string, i: nat)
    requires p in s && p in t && node in t && t[node].name == name && Sized(s[p]) && Sized(t[p])
    requires forall x :: x in s ==> x in t && t[x].name == s[x].name
    requires Children(t[p]) == Children(s[p]) + [node] && i <= s[p].count
    requires forall k :: 0 <= k < s[p].count ==> Children(s[p])[k] in s && s[Children(s[p])[k]].name != name
    ensures FindFrom(t, p, name, i) == node
    decreases s[p].count - i
  {
    assert t[p].slots[i] == Children(t[p])[i];
    if i < s[p].count {
      assert Children(t[p])[i] == Children(s[p])[i];
      FindLast(s, t, p, node, name, i + 1);
    }
  }

  lemma BasenameOf(path: string)
    requires path != "" && path[|path| - 1] != '/'
    ensures Basename(path) == path[LastSlash(path) + 1..] && '/' !in Basename(path)
    ensures LastSlash(path) + 1 < |path|
  {
    SkipNameIs(path, |path| - 1);
  }

  lemma SplitAtLast(path: string, last: nat)
    requires last < |path| && path[last] == '/'
    ensures path == path[..last] + "/" + path[last + 1..]
  {
  }

  /** A successful mkdir has a last component: the path does not end in a slash. */
  lemma {:induction false} CreatedSplits(s: Store, root: Ptr, path: string, cur: Ptr)
    requires MkdirOutcome(s, root, path, cur) == Created && 0 < LastSlash(path) <= 255
    ensures var last := LastSlash(path);
      last + 1 < |path| && path == path[..last] + "/" + path[last + 1..] &&
      Basename(path) == path[last + 1..] && '/' !in Basename(path) && ParentPath(path) == path[..last]
  {
    var last := LastSlash(path);
    SkipNameIs(path, |path| - 1);
    SplitAtLast(path, last);
    if last + 1 == |path| {
      ResolveComposes(s, root, path[..last], "", cur);
      assert path[last + 1..] == "";
      WalkEmpty(s, Resolve(s, root, path[..last], cur));
    } else {
      BasenameOf(path);
    }
  }

  lemma {:induction false} NewPathLeads(s: Store, depth: map<Ptr, nat>, root: Ptr, path: string, cur: Ptr, p: Ptr, node: Ptr, owner: nat)
    requires Tree(s, depth, {}) && Addable(s, p, node, FreshDir(Basename(path), p, owner))
    requires MkdirOutcome(s, root, path, cur) == Created && LastSlash(path) != 0 && LastSlash(path) <= 255
    requires p == MkdirParent(s, root, path, cur) && GoodName(Basename(path))
    requires Step(AfterMkdir(s, p, node, Basename(path), owner), p, Basename(path)) == node
    ensures Resolve(AfterMkdir(s, p, node, Basename(path), owner), root, path, cur) == node
  {
    var last, name := LastSlash(path), Basename(path);
    var t := AfterMkdir(s, p, node, name, owner);
    CutOfName(name);
    if last < 0 {
      assert path[0..] == path;
    } else {
      CreatedSplits(s, root, path, cur);
      ResolveComposes(t, root, path[..last], name, cur);
      WalkGrows(s, depth, p, node, name, owner, if path[0] == '/' then root else cur, Relative(path[..last]));
    }
  }

  lemma LeadingResolve(s: Store, depth: map<Ptr, nat>, root: Ptr, path: string, cur: Ptr, node: Ptr, name: string, owner: nat)
    requires NamedTree(s, depth, root) && cur in depth && Addable(s, cur, node, FreshDir(name, cur, owner))
    requires path == "/" + name && GoodName(name) && FindIn(s, root, name) == NULL
    ensures Resolve(AfterMkdir(s, cur, node, name, owner), root, path, cur) == node <==> cur == root
  {
    var t := AfterMkdir(s, cur, node, name, owner);
    assert path[1..] == name;
    CutOfName(name);
    NamedAt(s, depth, root, root);
    if cur == root {
      NewChildFound(s, depth, cur, node, name, owner);
    } else {
      WithChildAt(s, cur, node, FreshDir(name, cur, owner));
      NotFound(s, root, name, 0);
      StillMissing(s, t, root, name, 0);
    }
  }

  lemma LeadingName(s: Store, root: Ptr, path: string, cur: Ptr)
    requires MkdirOutcome(s, root, path, cur) == Created && LastSlash(path) == 0 && root in s && NULL !in s
    requires NameFits(path)
    ensures path == "/" + Basename(path) && GoodName(Basename(path)) && FindIn(s, root, Basename(path)) == NULL
  {
    SkipNameIs(path, |path| - 1);
    if |path| == 1 {
      WalkEmpty(s, root);
    } else {
      assert Basename(path) == path[1..];
      assert '/' !in path[1..];
      CutOfName(path[1..]);
    }
  }

  lemma {:induction false} StillMissing(s: Store, t: Store, d: Ptr, name: string, i: nat)
    requires d in s && d in t && Sized(s[d]) && ChildrenAgree(s, d) && t[d] == s[d]
    requires forall x :: x in s ==> x in t && t[x].name == s[x].name
    requires forall k :: 0 <= k < s[d].count ==> s[Children(s[d])[k]].name != name
    ensures FindFrom(t, d, name, i) == NULL
    decreases s[d].count - i
  {
    if i < s[d].count {
      assert Children(s[d])[i] in Children(s[d]);
      StillMissing(s, t, d, name, i + 1);
    }
  }

  lemma Clash(s: Store, depth: map<Ptr, nat>, root: Ptr, p: Ptr, node: Ptr, name: string, owner: nat)
    requires NamedTree(s, depth, root) && Addable(s, p, node, FreshDir(name, p, owner)) && p in depth
    requires FindIn(s, p, name) != NULL
    ensures !NamedTree(AfterMkdir(s, p, node, name, owner), depth[node := depth[p] + 1], root)
  {
    var t := AfterMkdir(s, p, node, name, owner);
    WithChildAt(s, p, node, FreshDir(name, p, owner));
    FindFromIn(s, p, name, 0);
    var i :| 0 <= i < s[p].count && Children(s[p])[i] == FindIn(s, p, name);
    var k := Children(t[p]);
    assert k[i] == Children(s[p])[i] && k[s[p].count] == node;
    assert t[k[i]].name == t[k[s[p].count]].name;
    if NamedTree(t, depth[node := depth[p] + 1], root) {
      NamedAt(t, depth[node := depth[p] + 1], root, p);
    }
  }

  lemma BadName(s: Store, depth: map<Ptr, nat>, root: Ptr, p: Ptr, node: Ptr, name: string, owner: nat)
    requires NamedTree(s, depth, root) && Addable(s, p, node, FreshDir(name, p, owner)) && p in depth
    requires !GoodName(name)
    ensures !NamedTree(AfterMkdir(s, p, node, name, owner), depth[node := depth[p] + 1], root)
  {
    var t := AfterMkdir(s, p, node, name, owner);
    WithChildAt(s, p, node, FreshDir(name, p, owner));
    assert Children(t[p])[s[p].count] == node;
    if NamedTree(t, depth[node := depth[p] + 1], root) {
      NamedAt(t, depth[node := depth[p] + 1], root, p);
    }
  }

  lemma NamedAt(s: Store, depth: map<Ptr, nat>, root: Ptr, p: Ptr)
    requires NamedTree(s, depth, root) && p in s
    ensures Sized(s[p]) && ChildrenAgree(s, p) && NamedWell(s, p)
  {
    assert ChildrenAgree(s, p);
  }

  lemma LeadingParent(s: Store, root: Ptr, path: string, cur: Ptr)
    requires LastSlash(path) == 0 && cur in s
    ensures MkdirParent(s, root, path, cur) == cur
  {
    assert ParentPath(path) == "";
    WalkEmpty(s, cur);
  }

  lemma SmallChildren()
    ensures var s := SmallTree();
      Children(s[1]) == [2] && Children(s[2]) == [3] && Children(s[3]) == [] &&
      s[1].name == "/" && s[2].name == "d" && s[3].name == "x"
  {
  }

  lemma SmallFinds(s: Store)
    requires s == SmallTree()
    ensures FindIn(s, 1, "x") == NULL && FindIn(s, 2, "x") == 3
  {
    assert FindFrom(s, 1, "x", 0) == FindFrom(s, 1, "x", 1) == NULL;
  }

  lemma SlashX(s: Store, root: Ptr, cur: Ptr)
    requires root in s && cur in s && cur != NULL && s[cur].kind == Dir && FindIn(s, root, "x") == NULL
    ensures LastSlash("/x") == 0 && Basename("/x") == "x" && NameFits("/x")
    ensures MkdirOutcome(s, root, "/x", cur) == Created && MkdirParent(s, root, "/x", cur) == cur
  {
    CutOfName("x");
    assert "/x"[1..] == "x";
    LeadingParent(s, root, "/x", cur);
  }

  lemma RemovedNames(s: Store, t: Store, d: Ptr, i: nat)
    requires d in s && Sized(s[d]) && ChildrenAgree(s, d) && NamedWell(s, d)
    requires d in t && Sized(t[d]) && ChildrenAgree(t, d)
    requires forall x :: x in t ==> x in s && t[x].name == s[x].name
    requires i < s[d].count && Children(t[d]) == Children(s[d])[..i] + Children(s[d])[i + 1..]
    ensures NamedWell(t, d)
  {
    var k, k' := Children(s[d]), Children(t[d]);
    forall j | 0 <= j < |k'|
      ensures k'[j] == k[if j < i then j else j + 1] && k'[j] in t
    {
      assert k'[j] in k';
    }
  }

  lemma PrunedNames(s: Store, n: Ptr, t: Store, d: Ptr)
    requires d in s && Sized(s[d]) && ChildrenAgree(s, d) && NamedWell(s, d)
    requires d in t && Sized(t[d]) && ChildrenAgree(t, d)
    requires forall x :: x in t ==> x in s && t[x].name == s[x].name
    requires t[d] == s[d] || t[d] == Detach(s[d], n)
    ensures NamedWell(t, d)
  {
    DetachChildren(s[d], n);
    if t[d] != s[d] {
      RemovedNames(s, t, d, IndexOf(Children(s[d]), n));
    } else {
      SameNames(s, t, d);
    }
  }

  lemma SameNames(s: Store, t: Store, d: Ptr)
    requires d in s && Sized(s[d]) && ChildrenAgree(s, d) && NamedWell(s, d)
    requires d in t && Sized(t[d]) && ChildrenAgree(t, d) && Children(t[d]) == Children(s[d])
    requires forall x :: x in t ==> x in s && t[x].name == s[x].name
    ensures NamedWell(t, d)
  {
    forall j | 0 <= j < |Children(t[d])|
      ensures Children(t[d])[j] in t
    {
      assert Children(t[d])[j] in Children(t[d]);
    }
  }

  lemma {:induction false} UnderGrows(s: Store, t: Store, depth: map<Ptr, nat>, depth': map<Ptr, nat>, n: Ptr, d: Ptr)
    requires forall x :: x in s ==> x in t && t[x].parent == s[x].parent
    requires forall x :: x in s && s[x].parent != NULL ==> s[x].parent in s
    requires forall x :: x in s && x in depth ==> x in depth' && depth'[x] == depth[x]
    requires d in s && Under(s, depth, n, d)
    ensures Under(t, depth', n, d)
    decreases if d in depth then depth[d] else 0
  {
    if d != n {
      UnderGrows(s, t, depth, depth', n, s[d].parent);
    }
  }

  lemma HasDepth(s: Store, depth: map<Ptr, nat>)
    requires Tree(s, depth, {})
    ensures forall x :: x in s ==> x in depth
  {
    forall x | x in s
      ensures x in depth
    {
      NodeOk(s, depth, {}, x);
    }
  }

  /** A good basename is what follows the last slash. */
  lemma NameAtEnd(path: string)
    requires LastSlash(path) >= 0 && '/' !in Basename(path) && Basename(path) != ""
    ensures var last := LastSlash(path);
      last < |path| && Basename(path) == path[last + 1..] && path == path[..last] + "/" + Basename(path)
  {
    SkipNameIs(path, |path| - 1);
    var b := Basename(path);
    BasenameEnds(path);
    assert b[|b| - 1] in b;
    SplitAtLast(path, LastSlash(path));
  }

  lemma BasenameEnds(path: string)
    requires path != "" && Basename(path) != ""
    ensures Basename(path)[|Basename(path)| - 1] == path[|path| - 1]
  {
  }

  /** The new directory is found under its name only from its parent, and there only
      if the name was new. */
  lemma OnlyFromParent(s: Store, depth: map<Ptr, nat>, p: Ptr, node: Ptr, name: string, owner: nat, q: Ptr)
    requires Tree(s, depth, {}) && Addable(s, p, node, FreshDir(name, p, owner)) && p in depth && GoodName(name)
    ensures Step(AfterMkdir(s, p, node, name, owner), q, name) == node <==> q == p && FindIn(s, p, name) == NULL
  {
    var t := AfterMkdir(s, p, node, name, owner);
    WithChildAt(s, p, node, FreshDir(name, p, owner));
    if q == p {
      if FindIn(s, p, name) == NULL {
        NewChildFound(s, depth, p, node, name, owner);
      } else {
        StepGrows(s, depth, p, node, name, owner, p, name);
        StepIn(s, depth, {}, p, name);
      }
    } else if q in s {
      NodeOk(s, depth, {}, q);
      FindFromIn(t, q, name, 0);
    }
  }

  lemma {:induction false} WalkSlashes(s: Store, cur: Ptr, n: nat, rest: string)
    requires cur in s && cur != NULL
    ensures Walk(s, cur, Slashes(n) + rest) == Walk(s, cur, rest)
  {
    if n == 0 {
      assert Slashes(0) + rest == rest;
    } else {
      var path := Slashes(n) + rest;
      assert path[0] == '/' && path[..0] == "";
      assert path[1..] == Slashes(n - 1) + rest;
      WalkSlashes(s, cur, n - 1, rest);
    }
  }

  lemma LongParts(path: string)
    requires path == Slashes(256) + "d/y"
    ensures LastSlash(path) == 257 && Basename(path) == "y" && GoodName("y")
    ensures path[..255] == "/" + Slashes(254) && path[..257] == "/" + (Slashes(255) + "d")
    ensures path == "/" + (Slashes(255) + "d/y")
  {
    assert path[258] == 'y' && path[257] == '/';
    assert SkipName(path, 258) == SkipName(path, 257) == 257;
    assert SkipSlashes(path, 258) == 258;
    assert path[258..] == "y";
  }

  lemma LongWalks(s: Store, path: string)
    requires s == SmallTree() && path == Slashes(256) + "d/y"
    ensures Resolve(s, 1, path, 2) == NULL && Resolve(s, 1, path[..255], 2) == 1
    ensures Resolve(s, 1, path[..257], 2) == 2
  {
    LongParts(path);
    WalkSlashes(s, 1, 255, "d/y");
    WalkSlashes(s, 1, 255, "d");
    WalkSlashes(s, 1, 254, "");
    WalkEmpty(s, 1);
    assert Slashes(254) + "" == Slashes(254);
    CutOfName("d");
    CutOfName("y");
    WalkJoin(s, 1, "d", "y");
    assert "d" + "/" + "y" == "d/y";
    assert FindFrom(s, 1, "d", 0) == 2;
    assert FindFrom(s, 2, "y", 0) == FindFrom(s, 2, "y", 1) == NULL;
  }
}
