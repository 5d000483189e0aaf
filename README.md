# Blobby in Dafny

Blobby is a key → bytes BLOB store for Ruby. Every backend and decorator has
the same interface. `store[key]` validates the key and returns a handle. The
handle answers `exists?`, `read` (the whole content, or chunks given to a
block), `write` and `delete`. This project models the core of Blobby in
Dafny and proves what each part promises:

- `KeyConstraint` (`key_constraint.dfy`). The key validator: five forbidden
  patterns, plus the rule that the key must survive a URI parse as a path.
  The parse is modelled as the path grammar of section 3.3 of RFC 3986
  (`pchar`, `/` and `%HH`). The proofs show that the source's rule is the
  same as a rule stated position by position.
- `InMemory` (`in_memory_store.dfy`). The reference backend: a class over a
  shared `map<string, seq<bv8>>`.
- `Composite` (`composite_store.dfy`). Fans writes out to every member and
  reads from the first member that holds the key. A delete is the
  short-circuiting `all?` of the members' deletes.
- `Logging` (`logging_store.dfy`). Delegates, then appends an audit line after
  each write and after each delete that removed something.
- `KeyTransforming` (`key_transforming_store.dfy`). Maps the key through a
  strategy, then delegates; the wrapped store validates the transformed key.
  The sharding and shard-ignoring strategies from the examples are modelled.
- `Filesystem` (`filesystem_store.dfy`). Files under a root directory, over
  a file system modelled as a map from paths to nodes. A write creates a
  temporary file (making the directory with `mkdir_p` if needed), fills it,
  sets its mode, and renames it into place. A stale-handle rename is
  retried once.
- `Http` (`http_store.dfy`). HEAD/GET/PUT/DELETE below a base URI. Each
  connection is retried with exponential backoff on `EOFError` and
  `ECONNRESET`. The network is a transport function: the outcome of the
  n-th attempt at a request.

Ruby's `nil` is `Option.None`. A raised exception is the `Err` or `Fail` case
of `Result` or `Outcome` (`common.dfy`). Decorators wrap the in-memory store,
which is the store every decorator test builds them on.

## Model

| member | source | states |
|---|---|---|
| KeyConstraint.MustAllow | lib/blobby/key_constraint.rb:23-32 | `must_allow!` fails exactly when `allows?` is false, with the offending key (nil included) in the error, and otherwise passes |
| KeyConstraint.Allows | lib/blobby/key_constraint.rb:23-28 | `allows?`: nil is refused; otherwise none of the five patterns matches and the URI path round trip holds (its consequences are the `AllowsIff` row) |
| KeyConstraint.HasCharIff | lib/blobby/key_constraint.rb:18 | the colon pattern matches exactly when some position holds `:` |
| KeyConstraint.HasDoubleSlashIff | lib/blobby/key_constraint.rb:17 | the `//+` pattern matches exactly when two adjacent positions hold `/` |
| KeyConstraint.PathRoundTrips | lib/blobby/key_constraint.rb:25 | `URI.parse(key).path == key`: the key is read as a URI path, one character or `%HH` escape at a time (characterised by `PathRoundTripsIff`) |
| KeyConstraint.PathRoundTripsIff | lib/blobby/key_constraint.rb:25 | the URI path round trip holds exactly when every `%` opens a two-hex-digit escape and every other character is a `pchar` or `/` |
| KeyConstraint.Matches | lib/blobby/key_constraint.rb:13-19 | `pattern =~ key` for the five patterns: blank, leading `/`, trailing `/` (Ruby's `\Z` also before a final newline), `//+` and `:` (characterised by `HasCharIff` and `HasDoubleSlashIff`) |
| KeyConstraint.NoneMatchBadPatterns | lib/blobby/key_constraint.rb:13-24 | `none?` over the five patterns is the conjunction of the five non-matches |
| KeyConstraint.AllowsIff | lib/blobby/key_constraint.rb:13-28 | `allows?` holds exactly for a non-empty key with no leading or trailing `/`, no `//`, no `:`, and a well-formed path; Ruby's `\Z` adds nothing because a valid key holds no newline |
| KeyConstraint.JoinValid | lib/blobby/key_constraint.rb:13-28 | two valid keys joined by one `/` make a valid key |
| KeyConstraint.ValidKeyExcludes | lib/blobby/key_constraint.rb:24-27 | a key holding a space, tab, CR, newline, `?` or `#` at any position is rejected |
| KeyConstraint.RejectedKeyExamples | spec/blobby/store_behaviour.rb:161-172 | nil, `""`, `foo?` and `foo:blah` are rejected |
| KeyConstraint.SlashRejectedExamples | spec/blobby/store_behaviour.rb:174-176 | `/foo`, `foo/` and `foo//bar` are rejected |
| KeyConstraint.WhitespaceRejected | spec/blobby/store_behaviour.rb:167-169 | keys with a space, a tab or a newline are rejected |
| KeyConstraint.SlashesAllowed | spec/blobby/store_behaviour.rb:164 | `foo/bar/baz` is accepted |
| KeyConstraint.MetacharactersAllowed | spec/blobby/store_behaviour.rb:165 | `@$&*.,;()~` is accepted |
| InMemory.InMemoryStore.constructor | lib/blobby/in_memory_store.rb:15-17 | the store wraps the given hash |
| InMemory.InMemoryStore.Available | lib/blobby/in_memory_store.rb:19-21 | the in-memory store is always available |
| InMemory.InMemoryStore.Get | lib/blobby/in_memory_store.rb:23-26 | `[]` succeeds exactly for an allowed key, raises the invalid-key error otherwise, and returns a fresh handle on this store and key without touching the hash |
| InMemory.StoredObject.constructor | lib/blobby/in_memory_store.rb:30-33 | the handle holds the shared hash and the key |
| InMemory.StoredObject.Exists | lib/blobby/in_memory_store.rb:37-39 | true exactly when the key is in the hash |
| InMemory.StoredObject.Read | lib/blobby/in_memory_store.rb:41-49 | the stored content, or nil when the key is absent |
| InMemory.StoredObject.ReadEach | lib/blobby/in_memory_store.rb:43-46 | the block is called exactly once, with the content or nil, and the call returns nil |
| InMemory.StoredObject.Write | lib/blobby/in_memory_store.rb:51-60 | the hash maps the key to the content and is otherwise unchanged |
| InMemory.StoredObject.Delete | lib/blobby/in_memory_store.rb:62-64 | returns whether the key was present; afterwards the key is absent and nothing else changed |
| InMemory.StoreBehaviour | spec/blobby/store_behaviour.rb:25-95 | nil before a write, the content after it, `true` then `false` from two deletes, `exists?` false after a delete, and no other key affected |
| Composite.AnyPresent | lib/blobby/composite_store.rb:35-37 | `any?` of the members' `exists?` over the members' contents at the key (characterised by `AnyPresentIff`) |
| Composite.FirstPresent | lib/blobby/composite_store.rb:39-44 | the content of the first member holding the key, or nil (characterised by `FirstPresentIsFirstMatch`) |
| Composite.AllPresent | lib/blobby/composite_store.rb:54-56 | `all?` of the members' deletes (characterised by `AllPresentIff`) |
| Composite.DeleteCount | lib/blobby/composite_store.rb:54-56 | how many members `all?` asks to delete (characterised by `DeleteCountStopsAtFirstAbsent`) |
| Composite.AfterDelete | lib/blobby/composite_store.rb:54-56 | the members' contents after the delete: absent in every member asked, unchanged in the rest |
| Composite.AnyPresentIff | lib/blobby/composite_store.rb:35-37 | `any?` of the members' `exists?` holds exactly when some member holds the key |
| Composite.FirstPresentIsFirstMatch | lib/blobby/composite_store.rb:39-44 | the read finds content exactly when some member holds the key, and it is the content of the first such member |
| Composite.AllPresentIff | lib/blobby/composite_store.rb:54-56 | `all?` of the deletes is true exactly when every member held the key |
| Composite.DeleteCountStopsAtFirstAbsent | lib/blobby/composite_store.rb:54-56 | `all?` asks every member when all hold the key; otherwise it stops at the first member without the key |
| Composite.DeleteTrueRemovesEverywhere | lib/blobby/composite_store.rb:54-56 | after a delete that returned true, no member holds the key |
| Composite.DeleteMayLeaveObject | lib/blobby/composite_store.rb:39-56 | when only the second member holds the key, delete returns false, leaves that member alone, and the read still finds the content |
| Composite.ReadAfterWrite | spec/blobby/composite_store_spec.rb:24-55 | once every member holds the content, `exists?` is true and the read returns it |
| Composite.Reached | lib/blobby/composite_store.rb:48-50 | how many members a write reaches: all of them when no member fails, and otherwise exactly the members before the failing one |
| Composite.CompositeStore.constructor | lib/blobby/composite_store.rb:11-13 | the store holds its members in order |
| Composite.CompositeStore.Available | lib/blobby/composite_store.rb:21-23 | available exactly when every member is available |
| Composite.CompositeStore.Get | lib/blobby/composite_store.rb:15-19 | validates the key once, then holds one handle per member, in member order, all on that key |
| Composite.StoredObject.View | lib/blobby/composite_store.rb:29-33 | each member's content at the key, in member order |
| Composite.StoredObject.constructor | lib/blobby/composite_store.rb:31-33 | the handle holds the member handles |
| Composite.StoredObject.Exists | lib/blobby/composite_store.rb:35-37 | true exactly when some member holds the key |
| Composite.StoredObject.Read | lib/blobby/composite_store.rb:39-44 | the content of the first member holding the key, or nil |
| Composite.StoredObject.ReadEach | lib/blobby/composite_store.rb:39-44 | the block gets the first member's content once if some member holds the key, and nothing otherwise |
| Composite.StoredObject.Write | lib/blobby/composite_store.rb:46-52 | members are written in order: with no failure, every member's hash maps the key to the content and is otherwise unchanged; when member `i` raises, its error is raised, the members before `i` hold the content, and member `i` and the later ones are unchanged |
| Composite.StoredObject.Delete | lib/blobby/composite_store.rb:54-56 | returns whether every member held the key; deletes from members in order up to the first without the key, and later members are untouched |
| Logging.Logger.constructor | spec/blobby/logging_store_spec.rb:12-14 | a logger starts with no lines |
| Logging.Logger.Info | lib/blobby/logging_store.rb:22-23 | `logger.info` appends one line |
| Logging.Inspect | lib/blobby/logging_store.rb:22-23 | `key.inspect` of a valid key: the key in double quotes |
| Logging.WroteMessage | lib/blobby/logging_store.rb:22 | the write line: `wrote to "<key>" in <store name>` |
| Logging.DeletedMessage | lib/blobby/logging_store.rb:23 | the delete line: `deleted "<key>" from <store name>` |
| Logging.WroteMessageNamesKey | lib/blobby/logging_store.rb:22 | for one store, equal write lines mean equal keys |
| Logging.DeletedMessageNamesKey | lib/blobby/logging_store.rb:23 | for one store, equal delete lines mean equal keys |
| Logging.WriteAndDeleteLinesDiffer | lib/blobby/logging_store.rb:22-23 | a write line is never a delete line |
| Logging.MessageExamples | spec/blobby/logging_store_spec.rb:28-43 | the lines are `wrote to "foo" in THE STORE` and `deleted "foo" from THE STORE` |
| Logging.LoggingStore.constructor | lib/blobby/logging_store.rb:9-13 | the decorator holds the store, its name and the logger |
| Logging.LoggingStore.Available | lib/blobby/logging_store.rb:15-17 | availability is the wrapped store's |
| Logging.LoggingStore.Get | lib/blobby/logging_store.rb:19-25 | no validation of its own: it succeeds or fails exactly as the wrapped store's `[]` does, and wraps that handle |
| Logging.StoredObject.constructor | lib/blobby/logging_store.rb:36-40 | the handle holds the wrapped handle and its callbacks' store name and logger |
| Logging.StoredObject.Exists | lib/blobby/logging_store.rb:42-44 | `exists?` of the wrapped handle |
| Logging.StoredObject.Read | lib/blobby/logging_store.rb:46-48 | `read` of the wrapped handle |
| Logging.StoredObject.ReadEach | lib/blobby/logging_store.rb:46-48 | `read` with a block of the wrapped handle |
| Logging.StoredObject.Write | lib/blobby/logging_store.rb:50-54 | when the wrapped write raises, its error is raised and nothing is written or logged; otherwise the wrapped write, then exactly one write line |
| Logging.StoredObject.Delete | lib/blobby/logging_store.rb:56-60 | the wrapped result unchanged, with one delete line exactly when it is true |
| Logging.AuditTrail | spec/blobby/logging_store_spec.rb:22-45 | a write then two deletes on a new key leave exactly one write line and one delete line |
| KeyTransforming.Shard | spec/blobby/key_transforming_store_spec.rb:48 | the sharding strategy: the key's first three two-character slices, then the key, joined by `/` (characterised by `ShardKeepsValidKeys` and `ShardRejectsShortKeys`) |
| KeyTransforming.LastSegment | spec/blobby/key_transforming_store_spec.rb:78 | the shard-ignoring strategy `key.split("/").last` (characterised by `LastSegmentIsSegment`, `LastSegmentNone` and `LastSegmentOfSegment`) |
| KeyTransforming.Slice | spec/blobby/key_transforming_store_spec.rb:48 | Ruby's `key[start, len]`, with a slice past the end joined as `""` |
| KeyTransforming.LastSegmentIsSegment | spec/blobby/key_transforming_store_spec.rb:78 | `split("/").last` is a non-empty run of the key free of `/`, at its start or after a `/`, followed only by slashes |
| KeyTransforming.LastSegmentNone | spec/blobby/key_transforming_store_spec.rb:78 | `split("/").last` is nil exactly for a key made only of slashes |
| KeyTransforming.LastSegmentOfSegment | spec/blobby/key_transforming_store_spec.rb:78 | a key without `/` is its own last segment |
| KeyTransforming.ShardKeepsValidKeys | spec/blobby/key_transforming_store_spec.rb:44-70 | a valid key of five or more characters, with no `/` or `%` in its first six, is still valid once sharded |
| KeyTransforming.SegmentValid | lib/blobby/key_constraint.rb:13-28 | a non-empty run of a valid key holding no `/` or `%` is a valid key |
| KeyTransforming.ShardRejectsShortKeys | spec/blobby/key_transforming_store_spec.rb:48 | a key of four characters or fewer shards to a key with `//`, which is rejected |
| KeyTransforming.ExampleKeyAllowed | spec/blobby/key_transforming_store_spec.rb:54 | `aabbccdd.png` is accepted |
| KeyTransforming.ShardExample | spec/blobby/key_transforming_store_spec.rb:44-70 | `aabbccdd.png` shards to `aa/bb/cc/aabbccdd.png`, which is accepted |
| KeyTransforming.LastSegmentExample | spec/blobby/key_transforming_store_spec.rb:72-100 | the last segment of `/aa/bb/cc/aabbccdd.png` is `aabbccdd.png` |
| KeyTransforming.LeadingSlashKeyRejected | spec/blobby/key_transforming_store_spec.rb:84 | `/aa/bb/cc/aabbccdd.png` itself is rejected |
| KeyTransforming.KeyTransformingStore.constructor | lib/blobby/key_transforming_store.rb:15-18 | the decorator holds the store and the strategy |
| KeyTransforming.KeyTransformingStore.Available | lib/blobby/key_transforming_store.rb:13-16 | availability is delegated to the wrapped store |
| KeyTransforming.KeyTransformingStore.Get | lib/blobby/key_transforming_store.rb:20-23 | the wrapped store's handle for the transformed key: it succeeds exactly when the transformed key is allowed |
| KeyTransforming.ShardedWrite | spec/blobby/key_transforming_store_spec.rb:44-70 | a write of `aabbccdd.png` puts the content under `aa/bb/cc/aabbccdd.png` in the wrapped hash, and a read returns it |
| KeyTransforming.LastSegmentWrite | spec/blobby/key_transforming_store_spec.rb:72-100 | a write of `/aa/bb/cc/aabbccdd.png` puts the content under `aabbccdd.png`, and a read returns it |
| KeyTransforming.IdentityWrite | spec/blobby/key_transforming_store_spec.rb:12-40 | with the identity strategy, a valid key is written under itself and read back, and an invalid one fails with nothing written |
| Filesystem.ApplyUmask | lib/blobby/filesystem_store.rb:88-90 | the result has no bit of the umask, and keeps every bit of the mode outside it |
| Filesystem.UmaskExamples | spec/blobby/filesystem_store_spec.rb:160-186 | `0666` under `0027` is `0640`, `0777` under `0027` is `0750`, and a zero umask keeps every bit |
| Filesystem.SqueezeEnds | lib/blobby/filesystem_store.rb:33 | collapsing runs of `/` never lengthens a path, empties only the empty path, and keeps its first and last characters |
| Filesystem.SqueezeNoRepeat | lib/blobby/filesystem_store.rb:33 | once runs of `/` are collapsed, no two adjacent characters are `/` |
| Filesystem.SqueezeKeeps | lib/blobby/filesystem_store.rb:33 | a path with no `//` is left as it is |
| Filesystem.Squeeze | lib/blobby/filesystem_store.rb:33 | every run of `/` collapsed into one (characterised by `SqueezeEnds`, `SqueezeNoRepeat` and `SqueezeKeeps`) |
| Filesystem.Canonical | lib/blobby/filesystem_store.rb:33 | the name the operating system resolves a path to: runs of `/` collapsed and a trailing `/` dropped except in the root (characterised by `CanonicalResolves`) |
| Filesystem.CanonicalResolves | lib/blobby/filesystem_store.rb:33 | the name the operating system resolves a path to has no `//` and no trailing `/` (the root aside); a name already in that form resolves to itself; emptiness and the first character are kept |
| Filesystem.Join | lib/blobby/filesystem_store.rb:33 | `dir + path` as the operating system resolves it: an absolute part replaces the directory, an empty part leaves it, and otherwise one `/` separates them |
| Filesystem.JoinSegment | lib/blobby/filesystem_store.rb:33 | a segment joined onto a resolved directory is the directory, one `/` and the segment (just the segment under `.`, `/` and the segment under the root), already resolved |
| Filesystem.JoinEmpty | spec/blobby/filesystem_store_spec.rb:61-67 | an empty shard part leaves the directory as it is |
| Filesystem.SqueezeDropsRepeat | lib/blobby/filesystem_store.rb:33 | dropping one of two adjacent `/` names the same entry |
| Filesystem.SqueezeTripleSlash | spec/blobby/filesystem_store_spec.rb:61-67 | three `/` between two parts name the same entry as one |
| Filesystem.ShortKeyShardPath | spec/blobby/filesystem_store_spec.rb:61-67 | a two-character key `k` shards to `k///k`, which names the file `dir/k/k`, and the directory made for it is `dir/k` |

| Filesystem.Parent | lib/blobby/filesystem_store.rb:103 | `parent` is never empty: the resolved path before its last `/`, `/` for a top-level entry, `.` for a bare name |
| Filesystem.ParentOfJoin | lib/blobby/filesystem_store.rb:103-104 | the parent of a segment joined onto a directory is that directory, so the temporary file sits beside the target |
| Filesystem.ParentOfSlashSegment | lib/blobby/filesystem_store.rb:103-104 | a resolved directory other than the root, one `/` and a segment make a resolved path whose parent is that directory |
| Filesystem.SqueezeAppendSegment | lib/blobby/filesystem_store.rb:33 | `/` and a segment appended to a path: the path's runs of `/` collapse, and one `/` is shared when the path already ends with one |
| Filesystem.JoinResolvesParent | lib/blobby/filesystem_store.rb:103-104 | a segment joined onto any non-empty directory name, trailing or doubled `/` included, has as parent the directory that name resolves to |

| Filesystem.Prefixes | lib/blobby/filesystem_store.rb:111 | the directories `mkdir_p` walks through are prefixes of the target, the target included |
| Filesystem.Blocked | lib/blobby/filesystem_store.rb:53-84 | some prefix of the directory is a regular file, so `open` and `rm` below it raise `ENOTDIR` |
| Filesystem.MkdirP | lib/blobby/filesystem_store.rb:111 | `mkdir_p` keeps every existing entry, makes every missing prefix, and gives each one it makes exactly the given mode |
| Filesystem.ChunksReassemble | lib/blobby/filesystem_store.rb:55-59 | the `read(512)` chunks are non-empty, at most 512 bytes, full except the last, and concatenate to the file |
| Filesystem.Chunks | lib/blobby/filesystem_store.rb:56-58 | the successive results of `io.read(512)` until it returns nil (characterised by `ChunksReassemble`) |
| Filesystem.NextChunk | lib/blobby/filesystem_store.rb:56 | one `read(512)` at a position takes the next chunk, and the bytes read so far grow by it |
| Filesystem.ReadChunks | lib/blobby/filesystem_store.rb:56-58 | the read loop yields exactly the 512-byte chunks in order, and together they are the file |
| Filesystem.Prepared | lib/blobby/filesystem_store.rb:107-113 | the file system once the temporary file can be opened: unchanged when the directory exists, otherwise after `mkdir_p` with `0777 & ~umask` (the `ENOENT` rescue) |
| Filesystem.AtomicCreate | lib/blobby/filesystem_store.rb:102-132 | `atomic_create` and the content write as a function of the file system before the write (characterised by the four rows below) |
| Filesystem.WriteSucceedsIff | lib/blobby/filesystem_store.rb:102-132 | a write succeeds exactly when it reaches the rename, at most one rename is stale, and the target is not a directory |
| Filesystem.FailedWriteKeepsTarget | lib/blobby/filesystem_store.rb:102-132 | a write that raises leaves the target path as it was |
| Filesystem.SuccessfulWrite | lib/blobby/filesystem_store.rb:102-132 | after a successful write the target holds the content with mode `0666 & ~umask` whether or not the chmod ran, the temporary file is gone, other entries are unchanged, and the only new entries are directories on the way, with mode `0777 & ~umask` |
| Filesystem.StaleRenameRetriedOnce | lib/blobby/filesystem_store.rb:122-131 | a stale rename touches the directory once and is retried once; a second stale rename raises `ESTALE` |
| Filesystem.Umask027Write | spec/blobby/filesystem_store_spec.rb:160-186 | under umask `0027` a successful write makes the file `0640` and its new directory `0750` |
| Filesystem.FileSystem.constructor | lib/blobby/filesystem_store.rb:17-19 | a file system with its entries and its process umask |
| Filesystem.FileSystem.CreateExclusive | lib/blobby/filesystem_store.rb:108 | `open` with `CREAT | EXCL` creates an empty file with `perm & ~umask`; it raises `EEXIST` for a taken name, `ENOENT` for a missing directory, and `ENOTDIR` below a file |
| Filesystem.FileSystem.MakeDirs | lib/blobby/filesystem_store.rb:111 | the file system after `mkdir_p` |
| Filesystem.FileSystem.WriteInto | lib/blobby/filesystem_store.rb:73 | `out << content` replaces the file's content, or raises `IOError` leaving it |
| Filesystem.FileSystem.Chmod | lib/blobby/filesystem_store.rb:117 | `chmod` sets the file's mode only |
| Filesystem.FileSystem.Rename | lib/blobby/filesystem_store.rb:124 | `rename` moves the entry to the target, or raises `ESTALE` or `EISDIR` leaving everything |
| Filesystem.FileSystem.Utime | lib/blobby/filesystem_store.rb:128-129 | `File.utime` records the directory and changes no entry |
| Filesystem.FilesystemStore.constructor | lib/blobby/filesystem_store.rb:17-21 | the umask defaults to the process umask and the strategy to the identity |
| Filesystem.FilesystemStore.Root | lib/blobby/filesystem_store.rb:18 | the entry the root's name resolves to, a trailing or doubled `/` included; `Pathname(dir)` keeps the name as given |
| Filesystem.RootTrailingSlash | lib/blobby/filesystem_store.rb:18 | a root named with a trailing `/` resolves to the directory without it |
| Filesystem.FilesystemStore.Available | lib/blobby/filesystem_store.rb:26-28 | available exactly when the entry the root's name resolves to is a directory the owner may read and write |
| Filesystem.AvailableRootHoldsSegment | lib/blobby/filesystem_store.rb:26-34 | an available store holds a one-segment key's file directly in its root: the handle's directory is the resolved root, it exists, and the write makes no directory |
| Filesystem.FilesystemStore.Get | lib/blobby/filesystem_store.rb:30-34 | succeeds exactly for an allowed key, and the handle's path is `dir + shard(key)` with the store's umask |
| Filesystem.NoopShard | lib/blobby/filesystem_store.rb:38-40 | the default strategy is the identity (a definition) |
| Filesystem.AvailabilityExamples | spec/blobby/filesystem_store_spec.rb:86-130 | a missing root (looked up by its resolved name), a root that is a file, and roots with modes `0500` and `0300` are unavailable; a `0700` directory is available |
| Filesystem.StoredObject.constructor | lib/blobby/filesystem_store.rb:44-47 | the handle holds its path and umask |
| Filesystem.StoredObject.Exists | lib/blobby/filesystem_store.rb:51 | true exactly when the path exists, file or directory |
| Filesystem.StoredObject.Read | lib/blobby/filesystem_store.rb:53-66 | a file's content; nil for a missing path; `ENOTDIR` when a file blocks the path's directory; `EISDIR` for a directory |
| Filesystem.StoredObject.ReadEach | lib/blobby/filesystem_store.rb:53-66 | the file's 512-byte chunks in order, which together are the file, and nil; nothing and nil for a missing path; nothing and `ENOTDIR` when a file blocks the directory; nothing and `EISDIR` for a directory |
| Filesystem.StoredObject.CreateTemp | lib/blobby/filesystem_store.rb:107-113 | `ENOTDIR` when a file blocks the directory; otherwise the directory is made with `0777 & ~umask` if missing, then `EEXIST` for a taken temporary name or an empty temporary file with `0666 & ~File.umask` |
| Filesystem.StoredObject.FillAndRename | lib/blobby/filesystem_store.rb:115-131 | `IOError` leaves the file system as it was; otherwise the temporary file holds the content with `0666 & ~umask` and is renamed as the rename step states |
| Filesystem.StoredObject.RenameIntoPlace | lib/blobby/filesystem_store.rb:122-131 | the first `ESTALE` touches the directory and retries; a second raises `ESTALE`; `EISDIR` onto a directory; otherwise the temporary file replaces the target |
| Filesystem.StoredObject.Write | lib/blobby/filesystem_store.rb:68-132 | the outcome, the new file system and the touched directories are those of the write protocol |
| Filesystem.StoredObject.Delete | lib/blobby/filesystem_store.rb:79-84 | true once a file is removed; false for a missing path; `ENOTDIR` when a file blocks the directory; `EISDIR` for a directory; nothing but the file changes |
| Http.Normalise | lib/blobby/http_store.rb:16-19 | the base URI ends with `/`; one is appended only when it is missing |
| Http.NormaliseIdempotent | lib/blobby/http_store.rb:18 | normalising twice is normalising once |
| Http.NormaliseExamples | spec/blobby/http_store_spec.rb:184-206 | `http://storeit.com/prefix` and `http://storeit.com/prefix/` both become `http://storeit.com/prefix/` |
| Http.Pow2 | lib/blobby/http_store.rb:61 | `2**i` is positive |
| Http.Scale | lib/blobby/http_store.rb:60 | the scaling factor lies in [0.5, 0.6) |
| Http.RetryIntervals | lib/blobby/http_store.rb:58-62 | one interval per retry |
| Http.RetryIntervalsBackOff | lib/blobby/http_store.rb:58-62 | the first interval lies in [0.5, 0.6) and each one doubles the one before |
| Http.Connection | lib/blobby/http_store.rb:39-50 | `with_http_connection` from one attempt on: a response ends it; a transient exception with a retry left tries again; any other exception, or a transient one with no retry left, is raised (characterised by the four rows below) |
| Http.ConnectionAttempts | lib/blobby/http_store.rb:39-56 | at most `max_retries + 1` attempts; every attempt but the last raised a transient error; the result is the last attempt's; a transient error is raised only once the retries are used up |
| Http.NonRetryableNotRetried | lib/blobby/http_store.rb:45-56 | an error other than `EOFError` or `ECONNRESET` is raised by the first attempt |
| Http.PersistentTransientError | spec/blobby/http_store_spec.rb:142-156 | transient errors that keep happening use every retry, and the last one is raised |
| Http.TransientThenRecovers | spec/blobby/http_store_spec.rb:126-140 | one transient error, then a response: the retry recovers |
| Http.Retryable | lib/blobby/http_store.rb:54-56 | the transient exceptions that are retried: `EOFError` and `ECONNRESET` |
| Http.Partial | lib/blobby/http_store.rb:45-48 | the segments an attempt handed to the block before it raised; none for a response |
| Http.Delivered | lib/blobby/http_store.rb:45-48 | the segments the first `n` attempts handed on before raising, in attempt order (characterised by `DeliveredEmpty` and `RetriedBodyRepeats`) |
| Http.DeliveredEmpty | lib/blobby/http_store.rb:45-48 | when no attempt broke off a body, no segment was handed on before the final attempt |
| Http.IsSuccess | lib/blobby/http_store.rb:87 | `Net::HTTPSuccess`: a status from 200 to 299 |
| Http.HasBody | lib/blobby/http_store.rb:89-92 | `read_body` has a body except for 204 and 205 |
| Http.ExistsResult | lib/blobby/http_store.rb:74-79 | `exists?` is true exactly for status 200 |
| Http.ReadResult | lib/blobby/http_store.rb:81-97 | 404 is nil, 2xx is the body (nil for 204 and 205, which have none), any other status raises |
| Http.BlockSegments | lib/blobby/http_store.rb:87-91 | the final response hands the block segments only when it is a 2xx with a body, and then exactly its body's segments |
| Http.RetriedBodyRepeats | lib/blobby/http_store.rb:81-97 | a body broken off by `EOFError` after segment `s1`, then a 200 with `s1, s2`, makes the block see `s1, s1, s2` |

| Http.WriteResult | lib/blobby/http_store.rb:109-110 | 2xx passes, any other status raises |
| Http.DeleteResult | lib/blobby/http_store.rb:116-129 | 2xx is true, 404 is false, any other status raises |
| Http.Handled | lib/blobby/http_store.rb:39-50 | an operation returns its handler's result on a response, or the connection's exception (a definition) |
| Http.HttpStore.constructor | lib/blobby/http_store.rb:16-21 | the base URI is normalised, and `max_retries` defaults to 2 |
| Http.HttpStore.WithHttpConnection | lib/blobby/http_store.rb:39-50 | the retry loop ends as the recursive definition does, after 1 to `max_retries + 1` attempts, having slept the first `attempts - 1` intervals and collected the segments the broken-off attempts handed on |
| Http.HttpStore.Available | lib/blobby/http_store.rb:26-32 | sends no request: true exactly when a connection is established within the retries; no exception escapes |
| Http.HttpStore.Get | lib/blobby/http_store.rb:34-37 | succeeds exactly for an allowed key, with a handle on this store and key |
| Http.StoredObject.constructor | lib/blobby/http_store.rb:67-70 | the handle holds the store and the key |
| Http.StoredObject.Path | lib/blobby/http_store.rb:133-137 | the object's path is the base path followed by the key (a definition) |
| Http.StoredObject.Exists | lib/blobby/http_store.rb:74-79 | the HEAD's connection result mapped by `exists?` |
| Http.StoredObject.Read | lib/blobby/http_store.rb:81-97 | the GET's connection result mapped by `read` |
| Http.StoredObject.ReadEach | lib/blobby/http_store.rb:81-97 | the block gets the segments of every attempt broken off mid-body, then the final body's segments on a 2xx that has one; the call returns nil on 2xx and 404 and raises otherwise |
| Http.StoredObject.Write | lib/blobby/http_store.rb:99-114 | a PUT of the content as `application/octet-stream`, mapped by `write`, or the connection's exception |
| Http.StoredObject.Delete | lib/blobby/http_store.rb:116-129 | the DELETE's connection result mapped by `delete` |

## Left out

- Streams as content (`respond_to?(:read)`): every `write` takes bytes, as if the stream were already read. String encodings are out as well: content is bytes throughout.
- `from_uri`, `lib/blobby.rb` (the store factory), `lib/blobby/abstract_store.rb` and `lib/blobby/fake_success_store.rb` are not part of this model.
- Decorators wrap the in-memory store only: each decorator is a class over that one store class, so a decorator over another decorator, or over the filesystem or HTTP store, is not modelled. A wrapped write that raises is still modelled, as an injected fault (below).
- Logging.StoredObject.Write and Composite.StoredObject.Write: the wrapped stores are in-memory stores, whose writes never raise, so a failing wrapped write is an injected fault parameter (the error, and for a composite the index of the failing member).
- Composite.StoredObject.Delete: requires the members to be distinct stores; two members sharing one hash (aliasing) are not modelled.
- KeyTransforming.KeyTransformingStore.Get: takes a string key; a nil key given to the strategy block is not modelled.
- Logging.Inspect: `key.inspect` is the key in double quotes, which is exact for valid keys; the escaping of quotes, backslashes and control characters is not modelled.
- KeyConstraint: the URI parse is modelled on ASCII; non-ASCII characters, which Ruby's parser rejects, are rejected here too without modelling the parser.
- Filesystem.Join and Filesystem.Parent: `Pathname` also folds `.` and `..` segments; the model resolves runs of `/` and a trailing `/` only, which agrees for keys with no `.` or `..` segment. Entries are named by the resolved path, as the operating system sees them, not by the string `Pathname` builds.
- Filesystem: permissions are the owner's bits of the root's mode. Ownership, root privileges, and permission errors on files are not modelled. Nor are symbolic links or the errors of `mkdir_p` itself.
- Filesystem: `Time.now` and the random temporary name are parameters. An `IOError` and a number of stale renames are injected as faults.
- Filesystem.StoredObject.Write: the source's `mkdir_p` retry is unbounded; the model assumes no one removes the directory between `mkdir_p` and the retry, so the retry is made at most once.
- Http: Net::HTTP, sockets, DNS and `sleep` are the transport function and the `slept` list; an attempt that breaks off a body records the segments it handed on. The exception raised inside a block other than `response.error!` is folded into the attempt's outcome.
- Http.RetryIntervals: backoff intervals are real numbers, not IEEE doubles, and `Kernel.rand` is a parameter in [0, 1).
- Http.HttpStore.constructor: `max_retries` is a natural number; a negative value (which makes `Array.new` raise) is not modelled.
- Http.Normalise: the base URI is an origin and a path; a query or a fragment in the base URI is not modelled.
- Http: the statuses raised by `error!` are one `HttpStatusError`; the distinct Net::HTTP exception classes are not modelled.
