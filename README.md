# inotify for Ruby, modelled in Dafny

This project models `lib/inotify.rb`, a small Ruby wrapper over Linux inotify, and proves
properties of the model. It has three parts.

- **Event flags** (`inotify_events.dfy`, module `InotifyEvents`): the `InotifyEvents`
  constants as 32-bit bit sets, and `event?`, the test `mask & event != 0`. Proved: every
  primitive flag is a single bit and no two share a bit; `IN_CLOSE`, `IN_MOVE` and
  `IN_ALL_EVENTS` are the unions of their parts (0x18, 0xC0, 0xFFF) and contain no other
  bit; `event?` holds exactly when the mask and the event share some bit, so for a composite
  it holds when any one part is present.
- **Event record decoding** (`inotify_ctypes.dfy`, module `InotifyCtypes`):
  `inotify_event`, which unpacks a `struct inotify_event` with `"lLLLZ*"`, and
  `inotify_read`, which zero-fills a 1045-byte buffer, lets `read` fill it and decodes the
  bytes read. Proved: decode inverts encode (with or without NUL padding after the name,
  and whatever follows the padding); re-encoding a decoded record gives back the front of the
  buffer; the name is the bytes from offset 16 up to the first NUL or the end; the `len`
  field plays no part in it.
- **Watch table** (`inotify.dfy`, module `InotifyWatch`, class `Inotify`): `@wds`, the Ruby
  Hash from watch descriptor to path, is an association list in insertion order
  (`ordered_hash.dfy`, module `OrderedHash`, gives `hash[k]`, `hash[k] = v` and
  `hash.key(v)` their Ruby meaning). `add_watch`, `rm_watch`, `rm_all_watches`,
  `recursive_add_watch` and `wait_for_event` are methods of the class. The kernel is not
  called: the descriptor `inotify_add_watch` returns and the bytes `read` delivers are
  parameters, and the calls made to `inotify_add_watch` and `inotify_rm_watch` are recorded
  in two ghost traces, `added` and `removed`.

`scenarios.dfy` holds clients that use only the contracts: the source's own driver (watch a
directory for `IN_CREATE | IN_MODIFY`, receive a creation, test the mask, remove the watch),
and a recursive watch on a tree of three directories.

Types: masks are `bv32` in the flag module and the unsigned `u32` integer the decoder
produces; the watch descriptor is a signed 32-bit `i32`; bytes are integers 0..255; paths
are `string`, event names byte sequences. Native byte order is taken to be little-endian.

What the code does, and the model with it:

- `inotify_event` never checks the buffer length and never uses `len` to bound the name:
  the name is whatever follows byte 16 up to the first NUL. A buffer of at least 16 bytes is
  a precondition of the model.
- When one read delivers several records, only the first is decoded, and a first record
  with `len` 0 (an event on the watched object itself) takes its name from the next
  record's header, up to that header's first NUL (`InotifyCtypes.EmptyNameReadsNextHeader`).
- `rm_watch` does not delete the table entry, so the table is unchanged after any removal,
  and removing the same path twice issues the same removal twice.
- `add_watch` stores whatever descriptor the kernel returns, -1 included.
- `wait_for_event` yields nil for a descriptor not in the table.
- There is no closed state.
- With duplicate paths, removal by path takes the first-inserted descriptor (`Hash#key`).

## Model

| member | source | states |
|---|---|---|
| InotifyEvents.PrimitivesDisjoint | lib/inotify.rb:23-67 | every primitive flag is exactly one bit, and no two primitive flags share a bit |
| InotifyEvents.CompositeValues | lib/inotify.rb:33-72 | IN_CLOSE, IN_MOVE and IN_ALL_EVENTS are the ORs of their listed flags and equal 0x18, 0xC0 and 0xFFF |
| InotifyEvents.UnionContainsParts | lib/inotify.rb:69-72 | every flag of a composite is wholly contained in the composite |
| InotifyEvents.UnionHasNoNewBits | lib/inotify.rb:69-72 | any value sharing a bit with an OR of flags shares a bit with one of the flags |
| InotifyEvents.CompositeBitsAreParts | lib/inotify.rb:33-72 | each single bit of IN_CLOSE, IN_MOVE or IN_ALL_EVENTS is one of the flags it is built from |
| InotifyEvents.IsEvent | lib/inotify.rb:215-217 | `event?` is false whenever the mask or the event is 0, and true whenever the mask contains the whole of a non-zero event |
| InotifyEvents.IsEventAnyBit | lib/inotify.rb:215-217 | `event?(mask, e)` holds exactly when some bit position is set in both mask and e |
| InotifyEvents.IsEventUnion | lib/inotify.rb:215-217 | `event?` on a composite holds exactly when it holds for at least one of its parts |
| InotifyEvents.MeetsSomePart | lib/inotify.rb:215-217 | a mask for which `event?` holds on a composite shares a bit with at least one of the composite's parts |
| InotifyEvents.PartMeetsUnion | lib/inotify.rb:215-217 | a mask for which `event?` holds on one part also satisfies `event?` for the whole composite |
| InotifyEvents.IsEventSingleFlag | lib/inotify.rb:215-217 | for a single-bit flag, `event?` holds exactly when the flag is contained in the mask |
| InotifyEvents.CreateModifyExample | lib/inotify.rb:229-238 | with mask IN_CREATE\|IN_MODIFY, `event?` is true for IN_CREATE and IN_MODIFY and false for IN_DELETE; IN_CLOSE_WRITE alone satisfies `event?(_, IN_CLOSE)` |
| InotifyCtypes.LoadU32 | lib/inotify.rb:113 | `L` reads little-endian: the first byte is the value's low byte and the fourth its high byte (the full round trip is LoadStoreU32 and StoreLoadU32) |
| InotifyCtypes.ToSigned | lib/inotify.rb:113 | `l` gives the signed value congruent to the unsigned one modulo 2^32, negative exactly when the top bit is set |
| InotifyCtypes.LoadStoreU32 | lib/inotify.rb:113 | reading an unsigned 32-bit little-endian field gives back the value whose bytes were stored |
| InotifyCtypes.StoreLoadU32 | lib/inotify.rb:113 | storing the value read from four bytes gives back those four bytes |
| InotifyCtypes.SignedRoundTrip | lib/inotify.rb:113 | the signed (`l`) reading of 32 bits and two's-complement encoding are inverse bijections |
| InotifyCtypes.CString | lib/inotify.rb:113 | `Z*` gives a NUL-free prefix of the bytes that ends at the first NUL or at the end |
| InotifyCtypes.CStringTerminated | lib/inotify.rb:113 | a NUL-free name followed by a NUL or by nothing reads back as itself under `Z*` |
| InotifyCtypes.DecodeEncode | lib/inotify.rb:112-121 | decoding an encoded record, with or without NUL padding and trailing bytes, returns the same wd, mask, cookie, len and name |
| InotifyCtypes.EncodeDecode | lib/inotify.rb:112-121 | re-encoding a decoded buffer gives back its first 16 + name-length bytes |
| InotifyCtypes.Decode | lib/inotify.rb:112-121 | the decoded name is the bytes after offset 16 up to, not including, the first NUL, or to the end of the buffer; the other fields are stated by DecodeEncode and EncodeDecode |
| InotifyCtypes.DecodeEmptyName | lib/inotify.rb:140-144 | a 16-byte buffer, or one whose bytes after the header are all zero, decodes to an empty name |
| InotifyCtypes.DecodeIgnoresLen | lib/inotify.rb:112-121 | changing the len field changes only the decoded len, never the name or the other fields |
| InotifyCtypes.EmptyNameReadsNextHeader | lib/inotify.rb:113 | a record with no name followed by a second record in the same buffer decodes with a name taken from the second record's header |
| InotifyCtypes.InotifyRead | lib/inotify.rb:139-145 | after zero-filling the buffer and letting `read` fill its front, the event returned is the decoding of exactly the bytes read |
| OrderedHash.FindKey | lib/inotify.rb:211 | the position found is the first entry with the key, or the end when no entry has it |
| OrderedHash.FindValue | lib/inotify.rb:189 | the position found is the first entry with the value, or the end when no entry has it |
| OrderedHash.Get | lib/inotify.rb:211 | `@wds[wd]`: a value found is stored under wd, and nil means no entry has key wd |
| OrderedHash.KeyOf | lib/inotify.rb:189 | `@wds.key(path)` is nil only when no entry holds the path (which key it finds is KeyOfIsFirst) |
| OrderedHash.Put | lib/inotify.rb:184 | `@wds[wd] = path`: the pair is stored, the table grows by at most one, and every entry under another key stays at its position |
| OrderedHash.GetIsEntry | lib/inotify.rb:211 | `@wds[wd]` is p exactly when (wd, p) is an entry, and nil exactly when wd is not a key |
| OrderedHash.KeyOfIsFirst | lib/inotify.rb:189 | `@wds.key(path)` is nil exactly when no entry has the path, and otherwise the key of the first-inserted entry with it |
| OrderedHash.KeyOfSoleEntry | lib/inotify.rb:189 | when every entry holding a path has key k, `@wds.key(path)` is k |
| OrderedHash.PutGet | lib/inotify.rb:184 | after `@wds[wd] = path`, wd maps to path and every other key maps to what it did before |
| OrderedHash.PutKeys | lib/inotify.rb:184 | `@wds[wd] = path` keeps an existing key in its position and appends a new key last |
| OrderedHash.PutUnique | lib/inotify.rb:184 | `@wds[wd] = path` keeps the keys unique |
| InotifyWatch.RmWatchCalls | lib/inotify.rb:188-193 | `rm_watch` issues at most one removal |
| InotifyWatch.RmWatchCallsSpec | lib/inotify.rb:188-193 | `rm_watch(path)` issues no removal exactly when no entry holds the path, and otherwise removes the descriptor of the first entry holding it |
| InotifyWatch.RmWatchesCalls | lib/inotify.rb:196-198 | removing each path of a list in turn issues at most one removal per path |
| InotifyWatch.RmWatchesCallsAllFound | lib/inotify.rb:196-198 | when every path is in the table, there is exactly one removal per path, in order, each the first-inserted descriptor for its path |
| InotifyWatch.RmAllWatchesCalls | lib/inotify.rb:196-198 | `rm_all_watches` issues one removal per table entry in table order; without duplicate paths these are exactly the table's descriptors in order |
| InotifyWatch.RmAllWatchesDuplicatePath | lib/inotify.rb:196-198 | with one path under two descriptors, the first descriptor is removed twice and the second never |
| InotifyWatch.PutAll | lib/inotify.rb:201-206 | the table after each `add_watch` of the list: it grows by at most one entry per call, and an entry whose key is not among the new descriptors stays at its position |
| InotifyWatch.PutAllGet | lib/inotify.rb:201-206 | after adding a list of watches in turn, each descriptor maps to the path added with its last occurrence, and other descriptors keep their entries |
| InotifyWatch.PutAllUnique | lib/inotify.rb:201-206 | adding a list of watches keeps the descriptors unique |
| InotifyWatch.Registrations | lib/inotify.rb:201-206 | one `inotify_add_watch` call per path (their contents, in order, are RegistrationsAt) |
| InotifyWatch.RegistrationsAt | lib/inotify.rb:201-206 | the i-th `inotify_add_watch` call of `recursive_add_watch` is for the i-th path (root first), always with the same event mask |
| InotifyWatch.Inotify.constructor | lib/inotify.rb:175-180 | a new object holds the descriptor `inotify_init` returned and an empty table |
| InotifyWatch.Inotify.AddWatch | lib/inotify.rb:183-185 | the kernel's descriptor, even -1, now maps to the path; all other entries are unchanged; key order is kept; the call is recorded; the path is returned |
| InotifyWatch.Inotify.RmWatch | lib/inotify.rb:188-193 | the table is unchanged, and the removal trace grows by the first-inserted descriptor for the path, or not at all |
| InotifyWatch.Inotify.RmAllWatches | lib/inotify.rb:196-198 | the table is unchanged, and the removal trace grows by one `rm_watch` per table value in table order |
| InotifyWatch.Inotify.RecursiveAddWatch | lib/inotify.rb:201-206 | the root is added first, then each supplied directory in order, each with its own descriptor; the list of directories is returned |
| InotifyWatch.Inotify.WaitForEvent | lib/inotify.rb:208-212 | yields the table lookup of the decoded descriptor (nil when unknown), the decoded mask and the decoded name |
| InotifyScenarios.TreeKeyOf | lib/inotify.rb:188-193 | after watching D, D/a/ and D/b/ under descriptors 1, 2 and 3, `@wds.key("D/a/")` is 2, so `rm_watch("D/a/")` removes descriptor 2 alone |
| InotifyScenarios.CreatedRecordDecodes | lib/inotify.rb:112-121 | a record for "foo.txt" under descriptor 7 with mask IN_CREATE, padded with NULs, decodes to exactly those fields |

## Left out

- The Fiddle bindings to libc and the native calls `inotify_init`, `inotify_add_watch`,
  `inotify_rm_watch`, `read` and `close` (lib/inotify.rb:76-109, 124-136, 147-150): foreign
  calls. Their results are parameters and the add and remove calls are ghost traces.
- `Inotify#close` (lib/inotify.rb:220-222): it is one foreign call and changes no state the
  model keeps.
- The finalizer that closes the descriptor (lib/inotify.rb:179): its timing depends on
  Ruby's garbage collector.
- `Dir.glob("#{path}/**/*/")` (lib/inotify.rb:203): file system traversal. The directories
  are a parameter, in the order the glob would list them.
- The return value of `rm_watch`, which is whatever `inotify_rm_watch` returns: a kernel
  result the model does not see.
- `InotifyCtypes.InotifyRead`: a `read` that fails or returns fewer than 16 bytes is
  excluded by its precondition. A failed read returns -1 and `cbuff.to_s(-1)` raises
  ArgumentError before anything is unpacked; a read of 0 to 15 bytes unpacks nil fields.
- `InotifyWatch.Inotify.WaitForEvent`: its precondition of 16 to 1045 bytes excludes the
  same two cases of `wait_for_event` (lib/inotify.rb:210): the ArgumentError of a failed
  read and the nil fields of a short one.
- The console output of the driver at lib/inotify.rb:225-242 and of example.rb; their calls
  are reproduced, without printing, by `InotifyScenarios.WatchDirectoryOnce`.
- Native byte order: the fields are decoded little-endian, as on the usual Linux targets.
- `event?` takes any Ruby Integer; the model takes 32-bit masks, which covers every flag and
  every decoded mask.
