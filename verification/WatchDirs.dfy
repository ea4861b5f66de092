/** The directories to watch, as config.c finds them on a fixed directory tree: one
    walk counts them, and a second walk fills the array sized by the first. */
module WatchDirs {
  import opened CStrings
  import opened Sequences

  /** What a path names.  A symbolic link counts as a file, as it does for `lstat`. */
  datatype Node =
    | File
    | Dir(entries: seq<Entry>)   // in `readdir` order
    | Locked                     // a directory `opendir` cannot open
    | Vanished                   // `lstat` fails

  datatype Entry = Entry(name: string, node: Node)

  predicate IsDots(name: string) {
    name == "." || name == ".."
  }

  /** `is_dir`, when `lstat` succeeds. */
  predicate IsDir(node: Node) {
    node.Dir? || node.Locked?
  }

  function Path(dir: string, name: string): string {
    dir + "/" + name
  }

  /** `count_all_dirs`: -1 when anything below cannot be read. */
  function Count(node: Node): (n: int)
    ensures n >= -1
    decreases node, 1
  {
    match node
    case Dir(entries) => CountEntries(entries)
    case _ => -1
  }

  function CountEntries(es: seq<Entry>): (n: int)
    ensures n >= -1
    decreases es, 0
  {
    if es == [] then 0
    else if IsDots(es[0].name) || es[0].node.File? then CountEntries(es[1..])
    else if es[0].node.Vanished? then -1
    else
      var below, rest := Count(es[0].node), CountEntries(es[1..]);
      if below < 0 || rest < 0 then -1 else 1 + below + rest
  }

  /** `load_watch_dir_rec`: what it writes, and whether it gets through. */
  function Load(dir: string, node: Node): (seq<string>, bool)
    decreases node, 1
  {
    match node
    case Dir(entries) => LoadEntries(dir, entries)
    case _ => ([], false)
  }

  function LoadEntries(dir: string, es: seq<Entry>): (seq<string>, bool)
    decreases es, 0
  {
    if es == [] then ([], true)
    else if IsDots(es[0].name) || es[0].node.File? then LoadEntries(dir, es[1..])
    else if es[0].node.Vanished? then ([], false)
    else
      var path := Path(dir, es[0].name);
      var (below, ok) := Load(path, es[0].node);
      if !ok then ([path] + below, false)
      else
        var (rest, ok') := LoadEntries(dir, es[1..]);
        ([path] + below + rest, ok')
  }

  /** The subdirectories in preorder, independently of either walk. */
  function Preorder(dir: string, node: Node): seq<string>
    decreases node, 1
  {
    match node
    case Dir(entries) => PreorderOf(dir, entries)
    case _ => []
  }

  function PreorderOf(dir: string, es: seq<Entry>): seq<string>
    decreases es, 0
  {
    if es == [] then []
    else
      var path := Path(dir, es[0].name);
      (if IsDir(es[0].node) && !IsDots(es[0].name) then [path] + Preorder(path, es[0].node) else [])
      + PreorderOf(dir, es[1..])
  }

  /** The two walks meet the same errors; without one they agree on every directory. */
  lemma {:induction false} WalksAgree(dir: string, node: Node)
    ensures Load(dir, node).1 <==> Count(node) >= 0
    ensures Count(node) >= 0 ==> Load(dir, node).0 == Preorder(dir, node) && |Preorder(dir, node)| == Count(node)
    decreases node, 1
  {
    if node.Dir? {
      EntryWalksAgree(dir, node.entries);
    }
  }

  lemma {:induction false} EntryWalksAgree(dir: string, es: seq<Entry>)
    ensures LoadEntries(dir, es).1 <==> CountEntries(es) >= 0
    ensures CountEntries(es) >= 0 ==>
              LoadEntries(dir, es).0 == PreorderOf(dir, es) && |PreorderOf(dir, es)| == CountEntries(es)
    decreases es, 0
  {
    if es != [] {
      EntryWalksAgree(dir, es[1..]);
      WalksAgree(Path(dir, es[0].name), es[0].node);
      assert [] + PreorderOf(dir, es[1..]) == PreorderOf(dir, es[1..]);
    }
  }

  // ---- Which directories, and when the walks succeed -----------------------

  /** The names lead from the node down to a directory, through directories only. */
  ghost predicate Leads(node: Node, names: seq<string>)
    decreases |names|
  {
    names == [] ||
    (node.Dir? && exists e ::
       e in node.entries && e.name == names[0] && e.name != "." && e.name != ".."
       && (e.node.Dir? || e.node.Locked?) && Leads(e.node, names[1..]))
  }

  function PathTo(dir: string, names: seq<string>): string
    decreases |names|
  {
    if names == [] then dir else PathTo(dir + "/" + names[0], names[1..])
  }

  ghost predicate LeadsTo(dir: string, node: Node, path: string) {
    exists names: seq<string> :: names != [] && Leads(node, names) && PathTo(dir, names) == path
  }

  /** The path is that of the entry's directory, or leads on below it. */
  ghost predicate EntryLeadsTo(dir: string, e: Entry, path: string) {
    && e.name != "." && e.name != ".." && (e.node.Dir? || e.node.Locked?)
    && (path == dir + "/" + e.name || LeadsTo(dir + "/" + e.name, e.node, path))
  }

  lemma LeadsByEntry(dir: string, node: Node, path: string)
    ensures LeadsTo(dir, node, path) <==> node.Dir? && exists e :: e in node.entries && EntryLeadsTo(dir, e, path)
  {
    if LeadsTo(dir, node, path) {
      var names :| names != [] && Leads(node, names) && PathTo(dir, names) == path;
      var e :| e in node.entries && e.name == names[0] && e.name != "." && e.name != ".."
               && (e.node.Dir? || e.node.Locked?) && Leads(e.node, names[1..]);
      assert PathTo(dir + "/" + e.name, names[1..]) == path;
      assert names[1..] == [] || LeadsTo(dir + "/" + e.name, e.node, path);
      assert EntryLeadsTo(dir, e, path);
    }
    if node.Dir? {
      if e :| e in node.entries && EntryLeadsTo(dir, e, path) {
        if path == dir + "/" + e.name {
          assert [e.name][1..] == [] && Leads(e.node, []);
          assert Leads(node, [e.name]) && PathTo(dir, [e.name]) == path;
        } else {
          var names :| names != [] && Leads(e.node, names) && PathTo(dir + "/" + e.name, names) == path;
          var all := [e.name] + names;
          assert all[1..] == names && all[0] == e.name;
          assert Leads(node, all) && PathTo(dir, all) == path;
        }
      }
    }
  }

  /** The walk lists exactly the paths of the directories below. */
  lemma {:induction false} PreorderIs(dir: string, node: Node, path: string)
    ensures path in Preorder(dir, node) <==> LeadsTo(dir, node, path)
    decreases node, 1
  {
    LeadsByEntry(dir, node, path);
    if node.Dir? {
      EntryPreorderIs(dir, node.entries, path);
    }
  }

  lemma {:induction false} EntryPreorderIs(dir: string, es: seq<Entry>, path: string)
    ensures path in PreorderOf(dir, es) <==> exists e :: e in es && EntryLeadsTo(dir, e, path)
    decreases es, 0
  {
    if es != [] {
      var e := es[0];
      EntryPreorderIs(dir, es[1..], path);
      PreorderIs(dir + "/" + e.name, e.node, path);
      var own := if IsDir(e.node) && !IsDots(e.name) then [Path(dir, e.name)] + Preorder(Path(dir, e.name), e.node) else [];
      assert path in PreorderOf(dir, es) <==> path in own || path in PreorderOf(dir, es[1..]);
      assert path in own <==> EntryLeadsTo(dir, e, path);
      hide LeadsTo, Preorder, PreorderOf, EntryLeadsTo;
      assert forall f | f in es :: f == e || f in es[1..];
    }
  }

  /** Every directory below can be opened, and every entry be looked at. */
  ghost predicate Readable(node: Node)
    decreases node
  {
    node.Dir? && forall e | e in node.entries ::
      e.name == "." || e.name == ".." || e.node.File? || (e.node.Dir? && Readable(e.node))
  }

  lemma {:induction false} LoadSucceedsExactly(dir: string, node: Node)
    ensures Load(dir, node).1 <==> Readable(node)
    decreases node, 1
  {
    if node.Dir? {
      EntriesSucceedExactly(dir, node.entries);
    }
  }

  lemma {:induction false} EntriesSucceedExactly(dir: string, es: seq<Entry>)
    ensures LoadEntries(dir, es).1 <==> forall e | e in es ::
              e.name == "." || e.name == ".." || e.node.File? || (e.node.Dir? && Readable(e.node))
    decreases es, 0
  {
    if es != [] {
      var e := es[0];
      EntriesSucceedExactly(dir, es[1..]);
      LoadSucceedsExactly(Path(dir, e.name), e.node);
      hide Readable, Load;
      assert forall f | f in es :: f == e || f in es[1..];
    }
  }

  // ---- The paths of one tree -----------------------------------------------

  /** Sibling names differ and contain no slash. */
  ghost predicate WellNamed(node: Node)
    decreases node, 1
  {
    match node
    case Dir(entries) => WellNamedAll(entries)
    case _ => true
  }

  ghost predicate WellNamedAll(es: seq<Entry>)
    decreases es, 0
  {
    es == [] ||
    (&& '/' !in es[0].name
     && (forall e | e in es[1..] :: e.name != es[0].name)
     && WellNamed(es[0].node)
     && WellNamedAll(es[1..]))
  }

  /** The path runs through the entry: it is the entry's path, or goes on below it. */
  predicate Through(path: string, dir: string, name: string) {
    path == Path(dir, name) || StartsWith(path, Path(dir, name) + "/")
  }

  lemma ThroughOne(path: string, dir: string, a: string, b: string)
    requires '/' !in a && '/' !in b && Through(path, dir, a) && Through(path, dir, b)
    ensures a == b
  {
    ComponentIs(path, dir, a);
    ComponentIs(path, dir, b);
  }

  lemma ComponentIs(path: string, dir: string, name: string)
    requires '/' !in name && Through(path, dir, name)
    ensures |path| > |dir| && path[|dir| + 1..][..IndexOf(path[|dir| + 1..], '/')] == name
  {
    var full := Path(dir, name);
    assert full[|dir| + 1..] == name;
    if path == full {
      IndexIs(name, '/', |name|);
      assert name[..|name|] == name;
    } else {
      var rest := path[|dir| + 1..];
      assert path[..|full| + 1] == full + "/";
      assert forall i | 0 <= i <= |full| :: path[i] == path[..|full| + 1][i];
      assert rest[..|name|] == name && rest[|name|] == '/';
      IndexIs(rest, '/', |name|);
    }
  }

  lemma {:induction false} PathsGoThrough(dir: string, node: Node, path: string)
    requires path in Preorder(dir, node)
    ensures StartsWith(path, dir + "/")
    decreases node, 1
  {
    EntryPathsGoThrough(dir, node.entries, path);
  }

  lemma {:induction false} EntryPathsGoThrough(dir: string, es: seq<Entry>, path: string)
    requires path in PreorderOf(dir, es)
    ensures StartsWith(path, dir + "/")
    ensures exists e :: e in es && Through(path, dir, e.name)
    decreases es, 0
  {
    var e := es[0];
    if path in PreorderOf(dir, es[1..]) {
      EntryPathsGoThrough(dir, es[1..], path);
    } else {
      assert Path(dir, e.name)[..|dir| + 1] == dir + "/";
      if path != Path(dir, e.name) {
        PathsGoThrough(Path(dir, e.name), e.node, path);
        assert path[..|dir| + 1] == path[..|Path(dir, e.name)| + 1][..|dir| + 1] == dir + "/";
      }
      assert e in es && Through(path, dir, e.name);
    }
  }

  /** No directory of a tree is listed twice, nor is the root among its subdirectories. */
  lemma {:induction false} PathsAreDistinct(dir: string, node: Node)
    requires WellNamed(node)
    ensures Distinct([dir] + Preorder(dir, node))
    decreases node, 1
  {
    assert Distinct(Preorder(dir, node)) by {
      if node.Dir? {
        EntryPathsAreDistinct(dir, node.entries);
      }
    }
    forall path | path in Preorder(dir, node)
      ensures path != dir
    {
      PathsGoThrough(dir, node, path);
    }
    DistinctConcat([dir], Preorder(dir, node));
  }

  lemma {:induction false} EntryPathsAreDistinct(dir: string, es: seq<Entry>)
    requires WellNamedAll(es)
    ensures Distinct(PreorderOf(dir, es))
    decreases es, 0
  {
    if es != [] {
      var e, rest := es[0], PreorderOf(dir, es[1..]);
      EntryPathsAreDistinct(dir, es[1..]);
      var path := Path(dir, e.name);
      var own := if IsDir(e.node) && !IsDots(e.name) then [path] + Preorder(path, e.node) else [];
      PathsAreDistinct(path, e.node);
      forall p, q | p in own && q in rest
        ensures p != q
      {
        OwnPathsGoThrough(dir, e, p);
        EntryPathsGoThrough(dir, es[1..], q);
        var f :| f in es[1..] && Through(q, dir, f.name);
        SlashFree(es[1..], f);
        if p == q {
          ThroughOne(p, dir, e.name, f.name);
        }
      }
      DistinctConcat(own, rest);
    }
  }

  lemma OwnPathsGoThrough(dir: string, e: Entry, p: string)
    requires p in [Path(dir, e.name)] + Preorder(Path(dir, e.name), e.node)
    ensures Through(p, dir, e.name)
  {
    if p != Path(dir, e.name) {
      PathsGoThrough(Path(dir, e.name), e.node, p);
    }
  }

  lemma {:induction false} SlashFree(es: seq<Entry>, e: Entry)
    requires WellNamedAll(es) && e in es
    ensures '/' !in e.name
    decreases es
  {
    if e != es[0] {
      SlashFree(es[1..], e);
    }
  }

  lemma DistinctConcat(a: seq<string>, b: seq<string>)
    requires Distinct(a) && Distinct(b) && forall p, q | p in a && q in b :: p != q
    ensures Distinct(a + b)
  {
    forall i, j | 0 <= i < j < |a + b|
      ensures (a + b)[i] != (a + b)[j]
    {
      if i < |a| <= j {
        assert a[i] in a && b[j - |a|] in b;
      }
    }
  }

  /** The parent of a listed directory is listed before it. */
  ghost predicate ParentsFirst(paths: seq<string>) {
    forall i | 0 < i < |paths| :: HasParent(paths, i)
  }

  ghost predicate HasParent(paths: seq<string>, i: nat)
    requires i < |paths|
  {
    exists j, name :: 0 <= j < i && paths[i] == Path(paths[j], name)
  }

  lemma ParentsFirstConcat(dir: string, a: seq<string>, b: seq<string>)
    requires ParentsFirst([dir] + a) && ParentsFirst([dir] + b)
    ensures ParentsFirst([dir] + (a + b))
  {
    var c := [dir] + (a + b);
    forall i | 0 < i < |c|
      ensures HasParent(c, i)
    {
      if i <= |a| {
        assert HasParent([dir] + a, i);
        var j, name :| 0 <= j < i && ([dir] + a)[i] == Path(([dir] + a)[j], name);
        assert c[i] == Path(c[j], name);
      } else {
        assert HasParent([dir] + b, i - |a|);
        var j, name :| 0 <= j < i - |a| && ([dir] + b)[i - |a|] == Path(([dir] + b)[j], name);
        assert c[i] == Path(c[if j == 0 then 0 else j + |a|], name);
      }
    }
  }

  lemma ParentsFirstBelow(dir: string, name: string, below: seq<string>)
    requires ParentsFirst([Path(dir, name)] + below)
    ensures ParentsFirst([dir] + ([Path(dir, name)] + below))
  {
    var own := [Path(dir, name)] + below;
    var c := [dir] + own;
    forall i | 0 < i < |c|
      ensures HasParent(c, i)
    {
      if i == 1 {
        assert c[1] == Path(c[0], name);
      } else {
        assert HasParent(own, i - 1);
        var j, n :| 0 <= j < i - 1 && own[i - 1] == Path(own[j], n);
        assert c[i] == Path(c[j + 1], n);
      }
    }
  }

  /** The root comes first and every directory after its parent. */
  lemma {:induction false} PreorderPutsParentsFirst(dir: string, node: Node)
    ensures ParentsFirst([dir] + Preorder(dir, node))
    decreases node, 1
  {
    if node.Dir? {
      EntriesPutParentsFirst(dir, node.entries);
    }
  }

  lemma {:induction false} EntriesPutParentsFirst(dir: string, es: seq<Entry>)
    ensures ParentsFirst([dir] + PreorderOf(dir, es))
    decreases es, 0
  {
    if es != [] {
      var e := es[0];
      var path := Path(dir, e.name);
      EntriesPutParentsFirst(dir, es[1..]);
      PreorderPutsParentsFirst(path, e.node);
      ParentsFirstBelow(dir, e.name, Preorder(path, e.node));
      var own := if IsDir(e.node) && !IsDots(e.name) then [path] + Preorder(path, e.node) else [];
      ParentsFirstConcat(dir, own, PreorderOf(dir, es[1..]));
    }
  }

  // ---- The configured roots ------------------------------------------------

  predicate IsDelimiter(c: char) {
    c == ',' || c == ' '
  }

  function SkipDelimiters(s: string): (r: string)
    ensures |r| <= |s| && (r != "" ==> !IsDelimiter(r[0]))
  {
    if s != "" && IsDelimiter(s[0]) then SkipDelimiters(s[1..]) else s
  }

  function TokenLength(s: string): (n: nat)
    ensures n <= |s| && forall i | 0 <= i < n :: !IsDelimiter(s[i])
    ensures n < |s| ==> IsDelimiter(s[n])
  {
    if s == "" || IsDelimiter(s[0]) then 0 else 1 + TokenLength(s[1..])
  }

  /** `strtok` with the delimiters `, `: the next token and what follows it. */
  function StrTok(s: string): (r: Option<(string, string)>)
    ensures r.Some? ==> r.value.0 != "" && |r.value.1| < |s|
  {
    var t := SkipDelimiters(s);
    if t == "" then None else Some((t[..TokenLength(t)], t[TokenLength(t)..]))
  }

  function Tokens(s: string): seq<string>
    decreases |s|
  {
    var t := StrTok(s);
    if t.None? then [] else [t.value.0] + Tokens(t.value.1)
  }

  function Listed(names: seq<string>): string {
    if names == [] then ""
    else names[0] + (if |names| == 1 then "" else ", ") + Listed(names[1..])
  }

  lemma TokenThen(name: string, rest: string)
    requires name != "" && (forall c | c in name :: !IsDelimiter(c)) && (rest != "" ==> IsDelimiter(rest[0]))
    ensures StrTok(name + rest) == Some((name, rest))
  {
    var s := name + rest;
    assert s[0] in name;
    assert SkipDelimiters(s) == s;
    var n := TokenLength(s);
    assert forall i | 0 <= i < |name| :: s[i] in name;
    assert rest != "" ==> s[|name|] == rest[0];
    assert n == |name|;
  }

  lemma AfterComma(list: string)
    ensures StrTok(", " + list) == StrTok(list)
  {
    var s := ", " + list;
    assert s[1..][1..] == list;
    assert SkipDelimiters(s) == SkipDelimiters(s[1..]) == SkipDelimiters(list);
  }

  /** Names without commas and blanks, listed with commas, are the tokens. */
  lemma {:induction false} TokensOfList(names: seq<string>)
    requires forall i | 0 <= i < |names| :: names[i] != "" && ',' !in names[i] && ' ' !in names[i]
    ensures Tokens(Listed(names)) == names
    decreases |names|
  {
    if names != [] {
      var rest := (if |names| == 1 then "" else ", ") + Listed(names[1..]);
      assert Listed(names) == names[0] + rest;
      TokenThen(names[0], rest);
      TokensOfList(names[1..]);
      AfterComma(Listed(names[1..]));
      hide StrTok, Listed;
      assert Tokens(rest) == Tokens(Listed(names[1..]));
      assert names == [names[0]] + names[1..];
    }
  }

  predicate Separators(s: string) {
    forall i | 0 <= i < |s| :: s[i] == ',' || s[i] == ' '
  }

  lemma {:induction false} SkipAll(lead: string, s: string)
    requires Separators(lead) && (s == "" || (s[0] != ',' && s[0] != ' '))
    ensures SkipDelimiters(lead + s) == s
  {
    if lead == "" {
      assert lead + s == s;
    } else {
      assert (lead + s)[1..] == lead[1..] + s;
      SkipAll(lead[1..], s);
    }
  }

  /** `strtok` skips commas and blanks and takes what follows up to the next of them. */
  lemma StrTokExactly(lead: string, token: string, rest: string)
    requires Separators(lead) && ',' !in token && ' ' !in token
    requires rest == "" || rest[0] == ',' || rest[0] == ' '
    ensures token != "" ==> StrTok(lead + token + rest) == Some((token, rest))
    ensures token == "" && rest == "" ==> StrTok(lead) == None
  {
    if token != "" {
      assert token[0] in token && (token + rest)[0] == token[0];
      SkipAll(lead, token + rest);
      TokenThen(token, rest);
      assert SkipDelimiters(token + rest) == token + rest;
      assert lead + token + rest == lead + (token + rest);
    } else {
      SkipAll(lead, "");
      assert lead + "" == lead;
    }
  }

  /** `is_recursive`: a key stored without a value counts as yes. */
  predicate IsRecursive(value: Option<string>) {
    value.None? || Lower(value.value) == "true"
  }

  /** The value says yes when it is the word true in any letter case. */
  lemma RecursiveIs(v: string)
    ensures IsRecursive(None)
    ensures IsRecursive(Some(v)) <==>
            |v| == 4 && (v[0] == 't' || v[0] == 'T') && (v[1] == 'r' || v[1] == 'R')
            && (v[2] == 'u' || v[2] == 'U') && (v[3] == 'e' || v[3] == 'E')
  {
    var yes := "true";
    if |v| == 4 {
      assert Lower(v) == yes <==> forall i | 0 <= i < 4 :: Lower(v)[i] == yes[i];
      assert yes[0] == 't' && yes[1] == 'r' && yes[2] == 'u' && yes[3] == 'e';
    }
  }

  /** What each path names on the fixed file system. */
  type FileSystem = string -> Node

  /** `get_watch_dir_count` */
  function RootsCount(roots: seq<string>, recursive: bool, fs: FileSystem): (n: int)
    ensures n >= -1
    decreases |roots|
  {
    if roots == [] then 0
    else
      var below, rest := if recursive then Count(fs(roots[0])) else 0, RootsCount(roots[1..], recursive, fs);
      if below < 0 || rest < 0 then -1 else 1 + below + rest
  }

  /** What one root and, when the configuration says so, the walk below it write. */
  function RootLoad(root: string, recursive: bool, fs: FileSystem): seq<string> {
    [root] + if recursive then Load(root, fs(root)).0 else []
  }

  /** What `load_watch_dir` writes; it does not look at the result of the recursive walk. */
  function RootsLoad(roots: seq<string>, recursive: bool, fs: FileSystem): seq<string>
    decreases |roots|
  {
    if roots == [] then []
    else
      RootLoad(roots[0], recursive, fs) + RootsLoad(roots[1..], recursive, fs)
  }

  /** Each root followed by its subdirectories in preorder. */
  function RootsPreorder(roots: seq<string>, recursive: bool, fs: FileSystem): seq<string>
    decreases |roots|
  {
    if roots == [] then []
    else
      ([roots[0]] + if recursive then Preorder(roots[0], fs(roots[0])) else []) + RootsPreorder(roots[1..], recursive, fs)
  }

  /** When the count succeeds, the load writes as many paths as were counted, and writes
      each root followed by all its subdirectories. */
  lemma {:induction false} CountSizesLoad(roots: seq<string>, recursive: bool, fs: FileSystem)
    requires RootsCount(roots, recursive, fs) >= 0
    ensures RootsLoad(roots, recursive, fs) == RootsPreorder(roots, recursive, fs)
    ensures |RootsLoad(roots, recursive, fs)| == RootsCount(roots, recursive, fs)
    decreases |roots|
  {
    if roots != [] {
      CountSizesLoad(roots[1..], recursive, fs);
      WalksAgree(roots[0], fs(roots[0]));
    }
  }

  /** The count succeeds exactly when every root can be read all the way down. */
  lemma {:induction false} CountSucceedsExactly(roots: seq<string>, recursive: bool, fs: FileSystem)
    ensures RootsCount(roots, recursive, fs) >= 0 <==>
            !recursive || forall i | 0 <= i < |roots| :: Readable(fs(roots[i]))
    decreases |roots|
  {
    if roots != [] {
      CountSucceedsExactly(roots[1..], recursive, fs);
      WalksAgree(roots[0], fs(roots[0]));
      LoadSucceedsExactly(roots[0], fs(roots[0]));
      hide Readable, Load;
      assert forall i | 0 < i < |roots| :: roots[i] == roots[1..][i - 1];
      assert forall i | 0 <= i < |roots| - 1 :: roots[1..][i] == roots[i + 1];
    }
  }
}
