/** The directory part of config.c as it runs: the count sizes an array, and the load
    fills it through a cursor. */
module Config {
  import opened CStrings
  import opened WatchDirs
  import D = Dictionary
  import Iniparser
  import IniMeaning

  /** `count_all_dirs` */
  method CountAllDirs(dirName: string, node: Node) returns (count: int)
    ensures count == Count(node)
    decreases node
  {
    if !node.Dir? {
      return -1;
    }
    count := 0;
    var i := 0;
    while i < |node.entries|
      invariant i <= |node.entries| && count >= 0
      invariant Count(node) == var rest := CountEntries(node.entries[i..]); if rest < 0 then -1 else count + rest
    {
      var entry := node.entries[i];
      assert node.entries[i..][1..] == node.entries[i + 1..];
      i := i + 1;
      if IsDots(entry.name) || entry.node.File? {
        continue;
      }
      if entry.node.Vanished? {
        return -1;
      }
      var below := CountAllDirs(Path(dirName, entry.name), entry.node);
      if below < 0 {
        return -1;
      }
      count := count + 1 + below;
    }
  }

  /** `struct conf`, as far as the directories go. */
  class Conf {
    var watchDir: array<string>
    var watchDirCount: nat

    ghost predicate Valid()
      reads this
    {
      watchDirCount <= watchDir.Length
    }

    ghost function Written(): seq<string>
      requires Valid()
      reads this, watchDir
    {
      watchDir[..watchDirCount]
    }

    constructor (room: nat)
      ensures Valid() && Written() == [] && watchDir.Length == room && fresh(watchDir)
    {
      watchDir := new string[room](_ => "");
      watchDirCount := 0;
    }

    /** `write_to_watchdir`: the source relies on the array being large enough. */
    method Write(path: string)
      requires Valid() && watchDirCount < watchDir.Length
      modifies this`watchDirCount, watchDir
      ensures Valid() && Written() == old(Written()) + [path]
    {
      watchDir[watchDirCount] := path;
      watchDirCount := watchDirCount + 1;
    }

    /** `load_watch_dir_rec` */
    method LoadRec(dir: string, node: Node) returns (ok: bool)
      requires Valid() && watchDirCount + |Load(dir, node).0| <= watchDir.Length
      modifies this`watchDirCount, watchDir
      ensures Valid() && ok == Load(dir, node).1
      ensures Written() == old(Written()) + Load(dir, node).0
      decreases node
    {
      if !node.Dir? {
        return false;
      }
      assert node.entries[0..] == node.entries;
      ghost var goal := Written() + Load(dir, node).0;
      assert goal == Written() + LoadEntries(dir, node.entries[0..]).0;
      hide Load, LoadEntries, Path, IsDots;
      var i := 0;
      while i < |node.entries|
        invariant Valid() && i <= |node.entries| && |goal| <= watchDir.Length
        invariant goal == Written() + LoadEntries(dir, node.entries[i..]).0
        invariant Load(dir, node).1 == LoadEntries(dir, node.entries[i..]).1
      {
        var entry := node.entries[i];
        LoadOneEntry(dir, node.entries, i);
        i := i + 1;
        if IsDots(entry.name) || entry.node.File? {
          continue;
        }
        if entry.node.Vanished? {
          return false;
        }
        var path := Path(dir, entry.name);
        ghost var own := [path] + Load(path, entry.node).0;
        Assoc(Written(), own, LoadEntries(dir, node.entries[i..]).0);
        Assoc(Written(), [path], Load(path, entry.node).0);
        Write(path);
        var below := LoadRec(path, entry.node);
        if !below {
          return false;
        }
      }
      ok := true;
    }

    /** One root, and below it when the configuration says so. */
    method LoadRoot(root: string, recursive: bool, fs: FileSystem)
      requires Valid() && watchDirCount + |RootLoad(root, recursive, fs)| <= watchDir.Length
      modifies this`watchDirCount, watchDir
      ensures Valid() && Written() == old(Written()) + RootLoad(root, recursive, fs)
    {
      hide Load;
      Assoc(Written(), [root], if recursive then Load(root, fs(root)).0 else []);
      Write(root);
      if recursive {
        var _ := LoadRec(root, fs(root));
      }
    }

    /** `load_watch_dir` on the value of `watch_dir`; the result of the recursive walk is ignored. */
    method LoadWatchDir(value: string, recursive: bool, fs: FileSystem)
      requires Valid() && watchDirCount + |RootsLoad(Tokens(value), recursive, fs)| <= watchDir.Length
      modifies this`watchDirCount, watchDir
      ensures Valid() && Written() == old(Written()) + RootsLoad(Tokens(value), recursive, fs)
    {
      ghost var goal := Written() + RootsLoad(Tokens(value), recursive, fs);
      var token := StrTok(value);
      assert TokensFrom(token) == Tokens(value);
      hide StrTok, Tokens, TokensFrom, RootLoad, RootsLoad;
      while token.Some?
        invariant Valid() && |goal| <= watchDir.Length
        invariant goal == Written() + RootsLoad(TokensFrom(token), recursive, fs)
        decreases if token.Some? then |token.value.1| + 1 else 0
      {
        var root := token.value.0;
        LoadOneRoot(token, recursive, fs);
        var next := StrTok(token.value.1);
        Assoc(Written(), RootLoad(root, recursive, fs), RootsLoad(TokensFrom(next), recursive, fs));
        LoadRoot(root, recursive, fs);
        token := next;
      }
      NoToken(recursive, fs);
    }
  }

  lemma Assoc<T>(a: seq<T>, b: seq<T>, c: seq<T>)
    ensures a + (b + c) == (a + b) + c
  {
  }

  lemma NoToken(recursive: bool, fs: FileSystem)
    ensures RootsLoad(TokensFrom(None), recursive, fs) == []
  {
  }

  lemma LoadOneEntry(dir: string, es: seq<Entry>, i: nat)
    requires i < |es|
    ensures var (e, rest, all) := (es[i], LoadEntries(dir, es[i + 1..]), LoadEntries(dir, es[i..]));
            if IsDots(e.name) || e.node.File? then all == rest
            else if e.node.Vanished? then all == ([], false)
            else
              var below := Load(Path(dir, e.name), e.node);
              var own := [Path(dir, e.name)] + below.0;
              if !below.1 then all == (own, false) else all == (own + rest.0, rest.1)
  {
    assert es[i..][1..] == es[i + 1..];
  }

  lemma LoadOneRoot(token: Option<(string, string)>, recursive: bool, fs: FileSystem)
    requires token.Some?
    ensures var (root, rest) := (token.value.0, TokensFrom(StrTok(token.value.1)));
            RootsLoad(TokensFrom(token), recursive, fs) ==
            RootLoad(root, recursive, fs) + RootsLoad(rest, recursive, fs)
  {
    assert TokensFrom(token)[1..] == TokensFrom(StrTok(token.value.1));
  }

  function TokensFrom(token: Option<(string, string)>): seq<string> {
    if token.None? then [] else [token.value.0] + Tokens(token.value.1)
  }

  /** `get_watch_dir_count` on the value of `watch_dir`. */
  method GetWatchDirCount(value: string, recursive: bool, fs: FileSystem) returns (count: int)
    ensures count == RootsCount(Tokens(value), recursive, fs)
  {
    count := 0;
    var token := StrTok(value);
    while token.Some?
      invariant count >= 0
      invariant RootsCount(Tokens(value), recursive, fs) ==
                var rest := RootsCount(TokensFrom(token), recursive, fs); if rest < 0 then -1 else count + rest
      decreases if token.Some? then |token.value.1| + 1 else 0
    {
      var root := token.value.0;
      assert TokensFrom(token)[1..] == TokensFrom(StrTok(token.value.1));
      count := count + 1;
      if recursive {
        var below := CountAllDirs(root, fs(root));
        if below < 0 {
          return -1;
        }
        count := count + below;
      }
      token := StrTok(token.value.1);
    }
  }

  /** `allocate_config` and `load_watch_dir`, on the loaded configuration file: the array
      has exactly the room the load needs and ends up full.  Null stands for the count of
      -1, for which no array can be allocated. */
  method LoadDirectories(d: D.Dictionary, fs: FileSystem) returns (conf: Conf?)
    requires d.Valid()
    requires IniMeaning.GetString(d.slots, Some("folder:watch_dir"), Some("")).Some?
    ensures var roots := Tokens(IniMeaning.GetString(d.slots, Some("folder:watch_dir"), Some("")).value);
            var recursive := IsRecursive(IniMeaning.GetString(d.slots, Some("folder:recursive"), Some("")));
            && (conf == null <==> recursive && exists i :: 0 <= i < |roots| && !Readable(fs(roots[i])))
            && (conf != null ==>
                  && conf.watchDirCount == conf.watchDir.Length
                  && conf.watchDir[..] == RootsPreorder(roots, recursive, fs))
  {
    hide Readable, RootsLoad, RootsCount, RootsPreorder, Tokens, IniMeaning.GetString, IsRecursive;
    var value := Iniparser.GetString(d, Some("folder:watch_dir"), Some(""));
    var flag := Iniparser.GetString(d, Some("folder:recursive"), Some(""));
    var recursive := IsRecursive(flag);
    ghost var roots := Tokens(value.value);
    CountSucceedsExactly(roots, recursive, fs);
    var count := GetWatchDirCount(value.value, recursive, fs);
    if count < 0 {
      return null;
    }
    CountSizesLoad(roots, recursive, fs);
    conf := new Conf(count);
    conf.LoadWatchDir(value.value, recursive, fs);
    assert conf.watchDirCount == |conf.Written()| == count;
    assert conf.watchDir[..] == conf.Written();
  }
}
