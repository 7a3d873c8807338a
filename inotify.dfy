/** The `Inotify` class: one inotify descriptor and the table `@wds` from watch descriptor
    to watched path. The kernel's answers (the descriptor `inotify_add_watch` returns, the
    bytes `read` delivers) are parameters; the `inotify_rm_watch` calls the object makes are
    recorded in a trace. */
module InotifyWatch {

  import opened Wrappers
  import opened OrderedHash
  import opened InotifyCtypes
  import InotifyEvents

  /** The removal `rm_watch(path)` issues on a table: the first-inserted descriptor whose
      path is `path`, or nothing. */
  function RmWatchCalls(wds: Hash<i32, string>, path: string): (calls: seq<i32>)
    ensures |calls| <= 1
  {
    match KeyOf(wds, path)
    case Some(wd) => [wd]
    case None => []
  }

  /** The removals that calling `rm_watch` on each of `paths` in turn issues. */
  function RmWatchesCalls(wds: Hash<i32, string>, paths: seq<string>): (calls: seq<i32>)
    ensures |calls| <= |paths|
  {
    if paths == [] then []
    else RmWatchesCalls(wds, paths[..|paths| - 1]) + RmWatchCalls(wds, paths[|paths| - 1])
  }

  /** The table after `add_watch` has stored each (descriptor, path) pair in turn. */
  function PutAll(wds: Hash<i32, string>, descriptors: seq<i32>, paths: seq<string>): (r: Hash<i32, string>)
    requires |descriptors| == |paths|
    ensures |wds| <= |r| <= |wds| + |paths|
    ensures forall j :: 0 <= j < |wds| && wds[j].0 !in descriptors ==> r[j] == wds[j]
  {
    if paths == [] then wds
    else
      var n := |paths| - 1;
      Put(PutAll(wds, descriptors[..n], paths[..n]), descriptors[n], paths[n])
  }

  /** `rm_watch(path)` removes nothing for a path the table does not hold, and otherwise the
      descriptor of the first entry holding it. */
  lemma RmWatchCallsSpec(wds: Hash<i32, string>, path: string)
    ensures RmWatchCalls(wds, path) == [] <==> path !in Values(wds)
    ensures RmWatchCalls(wds, path) != [] ==>
      exists i :: 0 <= i < |wds| && wds[i] == (RmWatchCalls(wds, path)[0], path) &&
        forall j :: 0 <= j < i ==> wds[j].1 != path
  {
    KeyOfIsFirst(wds, path);
  }

  /** When every path is in the table, `rm_watch` on each issues exactly one removal per
      path, in order: the first-inserted descriptor for that path. */
  lemma {:induction false} RmWatchesCallsAllFound(wds: Hash<i32, string>, paths: seq<string>)
    requires forall p :: p in paths ==> p in Values(wds)
    ensures |RmWatchesCalls(wds, paths)| == |paths|
    ensures forall i :: 0 <= i < |paths| ==>
      KeyOf(wds, paths[i]) == Some(RmWatchesCalls(wds, paths)[i])
  {
    if paths != [] {
      var n := |paths| - 1;
      RmWatchesCallsAllFound(wds, paths[..n]);
      KeyOfIsFirst(wds, paths[n]);
      var calls := RmWatchesCalls(wds, paths);
      forall i | 0 <= i < |paths|
        ensures KeyOf(wds, paths[i]) == Some(calls[i])
      {
        if i < n {
          assert paths[..n][i] == paths[i];
        }
      }
    }
  }

  /** `rm_all_watches` removes one descriptor per table entry, in table order; when no path
      is registered twice, that is every descriptor of the table exactly once. */
  lemma RmAllWatchesCalls(wds: Hash<i32, string>)
    ensures |RmWatchesCalls(wds, Values(wds))| == |wds|
    ensures forall i :: 0 <= i < |wds| ==>
      KeyOf(wds, wds[i].1) == Some(RmWatchesCalls(wds, Values(wds))[i])
    ensures (forall i, j :: 0 <= i < j < |wds| ==> wds[i].1 != wds[j].1) ==>
      RmWatchesCalls(wds, Values(wds)) == Keys(wds)
  {
    var vs := Values(wds);
    RmWatchesCallsAllFound(wds, vs);
    var calls := RmWatchesCalls(wds, vs);
    forall i | 0 <= i < |wds|
      ensures KeyOf(wds, wds[i].1) == Some(calls[i])
    {
      assert vs[i] == wds[i].1;
    }
    if forall i, j :: 0 <= i < j < |wds| ==> wds[i].1 != wds[j].1 {
      forall i | 0 <= i < |wds|
        ensures calls[i] == Keys(wds)[i]
      {
        assert vs[i] == wds[i].1;
        var f := FindValue(wds, wds[i].1);
        assert f == i;
      }
    }
  }

  /** With a path registered under two descriptors, `rm_all_watches` removes the
      first-inserted descriptor twice and never the second. */
  lemma RmAllWatchesDuplicatePath()
    ensures RmWatchesCalls([(1, "/tmp"), (2, "/tmp")], ["/tmp", "/tmp"]) == [1, 1]
  {
    var wds: Hash<i32, string> := [(1, "/tmp"), (2, "/tmp")];
    assert ["/tmp", "/tmp"][..1] == ["/tmp"];
    assert ["/tmp"][..0] == [];
    assert FindValue(wds, "/tmp") == 0;
  }

  /** Position i holds the last occurrence of wd. */
  predicate LastOccurrence(descriptors: seq<i32>, i: int, wd: i32) {
    0 <= i < |descriptors| && descriptors[i] == wd &&
    forall j :: i < j < |descriptors| ==> descriptors[j] != wd
  }

  /** After storing the pairs in turn, a descriptor maps to the path stored with its last
      occurrence, and a descriptor not among them keeps its old entry. */
  lemma {:induction false} PutAllGet(wds: Hash<i32, string>, descriptors: seq<i32>, paths: seq<string>, wd: i32)
    requires |descriptors| == |paths|
    ensures wd !in descriptors ==> Get(PutAll(wds, descriptors, paths), wd) == Get(wds, wd)
    ensures forall i :: LastOccurrence(descriptors, i, wd) ==>
      Get(PutAll(wds, descriptors, paths), wd) == Some(paths[i])
  {
    if paths != [] {
      var n := |paths| - 1;
      var ds, ps := descriptors[..n], paths[..n];
      PutAllGet(wds, ds, ps, wd);
      PutGet(PutAll(wds, ds, ps), descriptors[n], paths[n], wd);
      forall i | LastOccurrence(descriptors, i, wd)
        ensures Get(PutAll(wds, descriptors, paths), wd) == Some(paths[i])
      {
        if i < n {
          assert ds[i] == wd && ps[i] == paths[i];
        }
      }
      if wd !in descriptors {
        assert wd !in ds;
      }
    }
  }

  /** Storing pairs in turn keeps the descriptors unique. */
  lemma {:induction false} PutAllUnique(wds: Hash<i32, string>, descriptors: seq<i32>, paths: seq<string>)
    requires |descriptors| == |paths|
    requires UniqueKeys(wds)
    ensures UniqueKeys(PutAll(wds, descriptors, paths))
  {
    if paths != [] {
      var n := |paths| - 1;
      PutAllUnique(wds, descriptors[..n], paths[..n]);
      PutUnique(PutAll(wds, descriptors[..n], paths[..n]), descriptors[n], paths[n]);
    }
  }

  /** The (path, mask) pairs that adding each path with `event` passes to the kernel. */
  function Registrations(paths: seq<string>, event: bv32): (calls: seq<(string, bv32)>)
    ensures |calls| == |paths|
  {
    if paths == [] then []
    else Registrations(paths[..|paths| - 1], event) + [(paths[|paths| - 1], event)]
  }

  /** One `inotify_add_watch(fd, p, event)` per path, in the order of the paths. */
  lemma {:induction false} RegistrationsAt(paths: seq<string>, event: bv32, i: nat)
    requires i < |paths|
    ensures Registrations(paths, event)[i] == (paths[i], event)
  {
    if i < |paths| - 1 {
      RegistrationsAt(paths[..|paths| - 1], event, i);
    }
  }

  lemma RegistrationsStep(paths: seq<string>, n: nat, event: bv32)
    requires 0 < n <= |paths|
    ensures Registrations(paths[..n], event) == Registrations(paths[..n - 1], event) + [(paths[n - 1], event)]
  {
    assert paths[..n][..n - 1] == paths[..n - 1];
  }

  /** Concatenation is associative; stated generically so that the trace step in
      RecursiveAddWatch need not look inside the recorded pairs. */
  lemma AppendAssoc<T>(a: seq<T>, b: seq<T>, c: seq<T>)
    ensures (a + b) + c == a + (b + c)
  {
  }

  /** Adding the first n pairs is adding the first n - 1 and then the n-th. */
  lemma PutAllStep(wds: Hash<i32, string>, descriptors: seq<i32>, paths: seq<string>, n: nat)
    requires |descriptors| == |paths| && 0 < n <= |paths|
    ensures PutAll(wds, descriptors[..n], paths[..n]) ==
      Put(PutAll(wds, descriptors[..n - 1], paths[..n - 1]), descriptors[n - 1], paths[n - 1])
  {
    assert descriptors[..n][..n - 1] == descriptors[..n - 1];
    assert paths[..n][..n - 1] == paths[..n - 1];
  }

  class Inotify {
    /** `@fd`: the descriptor `inotify_init` returned. */
    const fd: int
    /** `@wds`: watch descriptor to path, in insertion order. */
    var wds: Hash<i32, string>
    /** The (path, mask) of every `inotify_add_watch` call, in order. */
    ghost var added: seq<(string, bv32)>
    /** The descriptor of every `inotify_rm_watch` call, in order. */
    ghost var removed: seq<i32>

    ghost predicate Valid()
      reads this
    {
      UniqueKeys(wds)
    }

    /** `initialize`: `fd` is what `inotify_init` returned; the table starts empty. */
    constructor (fd: int)
      ensures Valid()
      ensures this.fd == fd && wds == [] && added == [] && removed == []
    {
      this.fd := fd;
      wds := [];
      added := [];
      removed := [];
    }

    /** `add_watch(path, event)`: `wd` is what `inotify_add_watch(@fd, path, event)` returned,
        a failure value such as -1 included; it is stored as `@wds[wd] = path`. */
    method AddWatch(path: string, event: bv32, wd: i32) returns (r: string)
      requires Valid()
      modifies this
      ensures Valid()
      ensures wds == Put(old(wds), wd, path)
      ensures Get(wds, wd) == Some(path)
      ensures forall other :: other != wd ==> Get(wds, other) == Get(old(wds), other)
      ensures Keys(wds) == if wd in Keys(old(wds)) then Keys(old(wds)) else Keys(old(wds)) + [wd]
      ensures added == old(added) + [(path, event)] && removed == old(removed)
      ensures r == path
    {
      added := added + [(path, event)];
      PutUnique(wds, wd, path);
      PutKeys(wds, wd, path);
      forall other {
        PutGet(wds, wd, path, other);
      }
      wds := Put(wds, wd, path);
      r := path;
    }

    /** `rm_watch(path)`: remove the first-inserted descriptor for `path`, if any. The table
        itself is left as it was. */
    method RmWatch(path: string)
      requires Valid()
      modifies this`removed
      ensures wds == old(wds)
      ensures removed == old(removed) + RmWatchCalls(wds, path)
    {
      var wd := KeyOf(wds, path);
      if wd.Some? {
        removed := removed + [wd.value];
      }
    }

    /** `rm_all_watches`: `rm_watch` on every path of the table, in table order. Returns
        the paths, as `each` does. */
    method RmAllWatches() returns (paths: seq<string>)
      requires Valid()
      modifies this`removed
      ensures wds == old(wds)
      ensures paths == Values(wds)
      ensures removed == old(removed) + RmWatchesCalls(wds, paths)
    {
      paths := Values(wds);
      var i := 0;
      while i < |paths|
        invariant 0 <= i <= |paths|
        invariant removed == old(removed) + RmWatchesCalls(wds, paths[..i])
      {
        assert paths[..i + 1][..i] == paths[..i];
        RmWatch(paths[i]);
        i := i + 1;
      }
      assert paths[..i] == paths;
    }

    /** `recursive_add_watch(path, event)`: add `path`, then every directory below it in the
        order `Dir.glob` lists them. `wd` and `dirWds` are what the kernel returned for each.
        Returns the directories, as `each` does. */
    method RecursiveAddWatch(path: string, event: bv32, wd: i32, dirs: seq<string>, dirWds: seq<i32>)
      returns (r: seq<string>)
      requires Valid()
      requires |dirWds| == |dirs|
      modifies this
      ensures Valid()
      ensures wds == PutAll(old(wds), [wd] + dirWds, [path] + dirs)
      ensures added == old(added) + Registrations([path] + dirs, event)
      ensures removed == old(removed)
      ensures r == dirs
    {
      ghost var descriptors, paths := [wd] + dirWds, [path] + dirs;
      var _ := AddWatch(path, event, wd);
      assert descriptors[..1] == [wd] && paths[..1] == [path];
      var i := 0;
      while i < |dirs|
        invariant 0 <= i <= |dirs|
        invariant Valid()
        invariant wds == PutAll(old(wds), descriptors[..i + 1], paths[..i + 1])
        invariant added == old(added) + Registrations(paths[..i + 1], event)
        invariant removed == old(removed)
      {
        PutAllStep(old(wds), descriptors, paths, i + 2);
        RegistrationsStep(paths, i + 2, event);
        AppendAssoc(old(added), Registrations(paths[..i + 1], event), [(paths[i + 1], event)]);
        assert dirs[i] == paths[i + 1] && dirWds[i] == descriptors[i + 1];
        var _ := AddWatch(dirs[i], event, dirWds[i]);
        i := i + 1;
      }
      assert descriptors[..i + 1] == descriptors && paths[..i + 1] == paths;
      r := dirs;
    }

    /** `wait_for_event`: read one record (`data` is what the kernel delivers), decode it and
        yield the path its descriptor maps to (nil for an unknown descriptor), its mask and
        its name. */
    method WaitForEvent(data: seq<byte>) returns (path: Option<string>, mask: u32, name: seq<byte>)
      requires HeaderSize <= |data| <= ReadBufferSize
      ensures var ev := Decode(data);
        path == Get(wds, ev.wd) && mask == ev.mask && name == ev.name
    {
      var event := InotifyRead(data);
      path, mask, name := Get(wds, event.wd), event.mask, event.name;
    }
  }
}
