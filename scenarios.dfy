/** Clients of the model: what a caller can conclude from the contracts alone. */
module InotifyScenarios {

  import opened Wrappers
  import opened OrderedHash
  import opened InotifyCtypes
  import opened InotifyEvents
  import opened InotifyWatch

  /** A record for "foo.txt" created under descriptor 7, name padded with NULs to 16 bytes
      as the kernel does, decodes to the fields it was built from. */
  lemma CreatedRecordDecodes()
    ensures var name: seq<byte> := [0x66, 0x6F, 0x6F, 0x2E, 0x74, 0x78, 0x74];
      var ev := Event(7, IN_CREATE as int as u32, 0, 16, name);
      Decode(Encode(ev) + seq(9, _ => 0)) == ev
  {
    var name: seq<byte> := [0x66, 0x6F, 0x6F, 0x2E, 0x74, 0x78, 0x74];
    DecodeEncode(Event(7, IN_CREATE as int as u32, 0, 16, name), seq(9, _ => 0));
  }

  /** The decoded mask of a creation, seen as the bit set `event?` tests. */
  lemma CreateMaskBits(mask: u32)
    requires mask == 0x100
    ensures mask as bv32 == 0x100
  {
  }

  /** The wrapper's own driver, without the console output: watch a directory for
      IN_CREATE | IN_MODIFY, receive a creation of "x" in it, test the mask, stop watching. */
  method WatchDirectoryOnce() {
    var inotify := new Inotify(3);
    var _ := inotify.AddWatch("/tmp/d", IN_CREATE | IN_MODIFY, 1);
    assert inotify.wds == [(1, "/tmp/d")];
    var ev := Event(1, 0x100, 0, 16, [0x78]);
    var data := Encode(ev) + seq(15, _ => 0);
    DecodeEncode(ev, seq(15, _ => 0));
    var path, mask, name := inotify.WaitForEvent(data);
    assert path == Some("/tmp/d") && mask == 0x100 && name == [0x78];
    CreateMaskBits(mask);
    assert IsEvent(mask as bv32, IN_CREATE) && !IsEvent(mask as bv32, IN_MODIFY);
    inotify.RmWatch("/tmp/d");
    assert inotify.removed == [1];
  }

  /** In the table of the tree D/{a/, b/} only descriptor 2 holds D/a/, so `@wds.key` finds it. */
  lemma TreeKeyOf()
    ensures KeyOf(PutAll([], [1, 2, 3], ["D", "D/a/", "D/b/"]), "D/a/") == Some(2)
  {
    var ds: seq<i32>, ps: seq<string> := [1, 2, 3], ["D", "D/a/", "D/b/"];
    var h := PutAll([], ds, ps);
    PutAllUnique([], ds, ps);
    assert LastOccurrence(ds, 0, 1) && LastOccurrence(ds, 1, 2) && LastOccurrence(ds, 2, 3);
    PutAllGet([], ds, ps, 2);
    GetIsEntry(h, 2, "D/a/");
    forall i | 0 <= i < |h| && h[i].1 == "D/a/"
      ensures h[i].0 == 2
    {
      var c := h[i].0;
      GetIsEntry(h, c, "D/a/");
      PutAllGet([], ds, ps, c);
    }
    KeyOfSoleEntry(h, 2, "D/a/");
  }

  /** A tree D/{a/, b/}: three watches, one per directory; removing D/a/ removes its
      descriptor alone and leaves the table as it was. */
  method WatchTree() {
    var inotify := new Inotify(3);
    var _ := inotify.RecursiveAddWatch("D", IN_ALL_EVENTS, 1, ["D/a/", "D/b/"], [2, 3]);
    assert [1 as i32] + [2, 3] == [1, 2, 3] && ["D"] + ["D/a/", "D/b/"] == ["D", "D/a/", "D/b/"];
    PutAllGet([], [1, 2, 3], ["D", "D/a/", "D/b/"], 1);
    PutAllGet([], [1, 2, 3], ["D", "D/a/", "D/b/"], 2);
    PutAllGet([], [1, 2, 3], ["D", "D/a/", "D/b/"], 3);
    assert LastOccurrence([1, 2, 3], 0, 1) && LastOccurrence([1, 2, 3], 1, 2) && LastOccurrence([1, 2, 3], 2, 3);
    assert Get(inotify.wds, 1) == Some("D");
    assert Get(inotify.wds, 2) == Some("D/a/");
    assert Get(inotify.wds, 3) == Some("D/b/");
    var before := inotify.wds;
    inotify.RmWatch("D/a/");
    assert inotify.wds == before;
    TreeKeyOf();
    assert inotify.removed == [2];
  }
}
