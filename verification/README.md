# Sarus: a model of its protocols, resolvers and parsers

Sarus runs OCI containers on HPC systems. This project models the parts of Sarus where getting things
right depends on more than one function: a file-based barrier between the processes of a job, an image
repository that many processes update under advisory locks, the renumbering of file descriptors for a
container, symlink resolution inside a root file system, the replacement of MPI libraries, lockfiles and
the ssh key generator that relies on them, and the parsers and printers of image references, command
lines, user databases and device lists.

| file | models |
|---|---|
| `Barrier.dfy` | the global synchronisation hook: N ranks, a shared directory, arbitrary scheduling |
| `StoreProtocol.dfy` | concurrent updates of the repository's metadata file: inodes, locks, rename |
| `ImageStore.dfy` | the image store seen by one process: add, remove, find, list |
| `ImageReference.dfy`, `ReferenceGrammar.dfy` | the grammar of image references, parsing, printing, storage keys |
| `FileDescriptors.dfy` | closing, moving and duplicating file descriptors for the container |
| `Rootfs.dfy` | path resolution within a root file system, and a worklist machine for it |
| `SharedLibs.dfy`, `MpiLibraries.dfy`, `MpiHook.dfy` | ABI numbers of libraries, choice of a library, the MPI hook |
| `CliArguments.dfy` | splitting a command line into options and positional arguments |
| `Lockfile.dfy`, `Flock.dfy`, `SshKeys.dfy` | the two kinds of locks, and ssh key generation under the first |
| `PasswdDB.dfy`, `GroupDB.dfy`, `Lines.dfy` | the passwd and group databases |
| `Devices.dfy` | the renumbering of GPU devices |
| `Text.dfy`, `Decimal.dfy`, `Wrappers.dfy` | splitting and joining strings, decimal numbers, results |

Conventions. A concurrent protocol is a state machine: a state, a step relation per process, and runs that
interleave the steps in any order. Code that updates fields or loops is a class or a method with loops,
proved against functions of the old and new values. Exceptions are `Failure` values. What other processes
do during a wait, the contents of directories and the links of a file system are parameters. Recursion of
the path resolver carries a `depth`, and running out of it is the outcome `TooDeep`: `LinkCountSuffices`
shows that depth beyond the number of links makes no difference, so `TooDeep` at that depth stands for the
endless recursion of the code on cyclic links.

Where a promise turned out not to hold, the model keeps the code as it is, shows a case that breaks the
promise, and states exactly when it holds:

* Choosing an MPI library. The guard that avoids downgrading the patch number compares patch numbers of
  different versions, so the choice can pass over a fully compatible library (`PickMissesCompatible`) or over
  the newest one (`PickMissesNewest`). `PickIsCompatibleIff` and `PickIsNewestIff` give the exact conditions
  on the list of candidates.
* Concurrent updates of the repository. A process that waited for the lock of a file that has been replaced
  meanwhile locks the replaced file, and then updates can be lost (`StaleReadLosesUpdate`). No update is lost
  exactly if every rename replaces a document that agrees, outside the key of the update, with the one that
  was read (`SerialisableIff`); locking the file that the path names ensures that (`Serialisability`).
* Handing a `Flock` over. After `lhs = std::move(rhs)` both objects own the descriptor, so destroying `rhs`
  ends the lock (`HandOver`), while the comments in `release` count the hand-over as harmless.
  `ReleaseAfterHandOver` says exactly when the later release of `lhs` closes another file.
* Values on the command line. A comment says that the token after an option is its value unless it starts with
  a dash, but the code only looks for a single dash followed by something else: `-`, `--`, `--x` and `---x` are
  taken as values, too (`DashDashIsTakenAsValue`). `SplitAsCommentedIff` says exactly when the two readings
  agree on a command line.
* Time-outs of a `Lockfile`. The 32-bit time counter wraps around before the largest time-outs
  (`GivesUpInTimeIff`, `GivesUpEventuallyIff`).
* Reading back a printed image reference fails for `localhost/img` and `[ab]/img`
  (`NoNamespaceDoesNotReadBack`, `BracketDoesNotReadBack`); `RoundTrip` is exact.
* The ABI number in a library's own name is lost when a link on the way to its directory carries the linker name
  with another number (`OwnAbiCanBeLost`); `OwnAbiIsPrefix` and `OwnAbiIsPrefixIffAdopted` are exact.
* Renumbering GPU devices sorts identifiers as strings, so devices 9 and 10 swap (`NineAndTenSwap`);
  `NumericOrderIff` is exact.
* Resolving paths does not end on cyclic links; `AcyclicIff` says that it ends on every path exactly if the
  links have no cycle.
* The databases read back what was written exactly if the entries are plain (`PasswdDB.RoundTripIff`,
  `GroupDB.RoundTripIff`).

## Model

| member | source | states |
|---|---|---|
| `Barrier.StepKeepsInv` | src/hooks/slurm_global_sync/Hook.cpp:62-139 | every step of every rank (signalling, polling, removing the directory) keeps the invariant that ties program counters, arrival and departure files and the existence of the directories together |
| `Barrier.PollSeesAll` | src/hooks/slurm_global_sync/Hook.cpp:117-123 | counting as many files as there are ranks means that every single rank has signalled |
| `Barrier.BarrierSafety` | src/hooks/slurm_global_sync/Hook.cpp:76-133 | in every state of every run no rank has failed; a rank past the arrival loop means that all arrival files existed at once before; while rank 0 removes the directory every other rank is done |
| `Barrier.OnlyAPollLeavesArrival` | src/hooks/slurm_global_sync/Hook.cpp:76-84 | the step by which a rank leaves the arrival loop happens in a state with the arrival files of all ranks |
| `Barrier.LeavingArrival` | src/hooks/slurm_global_sync/Hook.cpp:76-84 | for every run: a rank past the arrival loop has an earlier state with the arrival files of all ranks |
| `Barrier.StepDecreasesMeasure` | src/hooks/slurm_global_sync/Hook.cpp:62-97 | every step that changes the state decreases a natural number |
| `Barrier.SomeRankCanMove` | src/hooks/slurm_global_sync/Hook.cpp:62-97 | in every reachable unfinished state some rank has a step that changes the state: no deadlock |
| `Barrier.FinishedIsFinal` | src/hooks/slurm_global_sync/Hook.cpp:62-97 | a reachable state has no changing step exactly if all ranks are done and the directory is gone |
| `Barrier.MovesAreBounded` | src/hooks/slurm_global_sync/Hook.cpp:62-97 | the number of changing steps of any run is bounded by the measure of its start |
| `Barrier.BarrierCompletes` | src/hooks/slurm_global_sync/Hook.cpp:62-115 | every run, whatever was scheduled so far, extends to one that ends with all ranks done and the directory gone |
| `Barrier.RoundProgresses` | src/hooks/slurm_global_sync/Hook.cpp:62-97 | a stretch of a run in which every rank gets a turn lowers the measure, whatever the order of the turns, unless all was finished |
| `Barrier.FairRunFinishes` | src/hooks/slurm_global_sync/Hook.cpp:62-115 | every run in which each of the n ranks gets a turn in each of 38 n rounds ends with all ranks done and the directory gone |
| `StoreProtocol.NextKeepsDocInv` | src/image_manager/ImageStore.cpp:63-128 | every step of every process, stops and constructors included, keeps the document invariant |
| `StoreProtocol.DocumentAlwaysComplete` | src/image_manager/ImageStore.cpp:198-208 | under every interleaving the metadata path names nothing or a complete document with pairwise distinct keys, and does not become missing again |
| `StoreProtocol.OldOrNewDocument` | src/image_manager/ImageStore.cpp:362-384 | a stop between any two steps leaves the old document or the whole new one |
| `StoreProtocol.RenameIsAlone` | src/image_manager/ImageStore.cpp:362-384 | when a writer is about to rename, no other update is under way, if reads were fresh |
| `StoreProtocol.ApplyEqualIff` | src/image_manager/ImageStore.cpp:71-86 | an update makes no difference between two documents exactly if they agree outside its key |
| `StoreProtocol.SerialStep` | src/image_manager/ImageStore.cpp:362-384 | a step keeps the document equal to the committed updates exactly if it is no rename over a document that differs, outside the key, from the one read |
| `StoreProtocol.SerialisableIff` | src/image_manager/ImageStore.cpp:63-128 | for every run from an existing file: the document is always the committed updates in commit order exactly if every rename is such |
| `StoreProtocol.CommitsOnce` | src/image_manager/ImageStore.cpp:362-384 | in every run from an existing file a process is in the commit order once if it committed, else not at all |
| `StoreProtocol.CommitsAreAskedFor` | src/image_manager/ImageStore.cpp:63-196 | in every run from an existing file every committed update is the one its process was asked for: an addition puts its entry, a removal deletes its key, a find deletes its key only if it missed the files |
| `StoreProtocol.ReadHappened` | src/image_manager/ImageStore.cpp:63-196 | a process that finishes has read the document |
| `StoreProtocol.AddCommits` | src/image_manager/ImageStore.cpp:63-98 | an addition that finishes has committed, once |
| `StoreProtocol.RemoveCommitsIff` | src/image_manager/ImageStore.cpp:100-128 | a removal that finishes has committed, once, exactly if its key was in the document it read |
| `StoreProtocol.FindLeaves` | src/image_manager/ImageStore.cpp:168-175 | a find that does not see its key, or sees the files, commits nothing |
| `StoreProtocol.RereadHappened` | src/image_manager/ImageStore.cpp:176-182 | a find that sees its key and misses the files reads again before it finishes |
| `StoreProtocol.FindCommitsIff` | src/image_manager/ImageStore.cpp:180-188 | a find that reads again commits, once, exactly if its key is still there |
| `StoreProtocol.NextKeepsFreshInv` | src/image_manager/ImageStore.cpp:63-128 | every step with fresh reads keeps the updates under way on the document in place, under its lock |
| `StoreProtocol.Serialisability` | src/image_manager/ImageStore.cpp:161-196 | the sufficient side in terms of locks: if each writer's locked inode is the one the path names when it reads, the document is the committed updates in commit order, each committed process once |
| `StoreProtocol.AddedImageStays` | src/image_manager/ImageStore.cpp:63-98 | an added image is found, intact, unless a later update names its key |
| `StoreProtocol.StaleReadLosesUpdate` | src/libsarus/Flock.cpp:120-147 | a concrete run without the fresh-read condition that loses an update, for any three images with different keys |
| `ImageStore.AddIsMapUpdate` | src/image_manager/ImageStore.cpp:63-98 | erasing the entries with the key and appending is map update, whatever the document |
| `ImageStore.RemoveIsMapRemoval` | src/image_manager/ImageStore.cpp:340-347 | erasing the first entry with the key is map removal when keys are distinct |
| `ImageStore.AddKeepsDistinct` | src/image_manager/ImageStore.cpp:71-86 | adding keeps keys pairwise distinct |
| `ImageStore.RemoveKeepsDistinct` | src/image_manager/ImageStore.cpp:340-347 | removing keeps keys pairwise distinct |
| `ImageStore.AddKeepsOtherLookups` | src/image_manager/ImageStore.cpp:63-98 | adding an image leaves the lookup of every other image of the same kind (tagged, or digest only) unchanged |
| `ImageStore.OldEntry` | src/image_manager/ImageStore.cpp:246-286 | entries of versions without id and registry digest are images without them, with all other fields |
| `ImageStore.Store.constructor` | src/image_manager/ImageStore.cpp:35-61 | an existing document is kept, a missing one is created empty |
| `ImageStore.Store.FindImageMetadata` | src/image_manager/ImageStore.cpp:210-225 | the first entry with the key is the map's value at the key, and is found exactly if there is one |
| `ImageStore.Store.EraseEntries` | src/image_manager/ImageStore.cpp:71-81 | the erasing loop leaves the entries with other keys, in their order |
| `ImageStore.Store.AddImage` | src/image_manager/ImageStore.cpp:63-98 | map update with all fields of the image intact; an image without key is refused and nothing changes |
| `ImageStore.Store.RemoveRepositoryMetadataEntry` | src/image_manager/ImageStore.cpp:340-347 | the map without the key |
| `ImageStore.Store.RemoveImage` | src/image_manager/ImageStore.cpp:100-128 | succeeds exactly for a stored image, and removes its entry and its files and nothing else |
| `ImageStore.Store.FindImage` | src/image_manager/ImageStore.cpp:161-196 | returns the stored image intact; an entry without files is removed instead, and nothing else changes |
| `ImageStore.Store.ListImages` | src/image_manager/ImageStore.cpp:133-159 | when all files exist, the stored images in document order |
| `ImageReference.Normalize` | src/common/ImageReference.cpp:58-64 | a reference with a digest loses its tag; the rest stays |
| `ImageReference.CutPrinted` | src/cli/Utility.cpp:108-155 | name, tag and digest are found again in their printed form |
| `ImageReference.ParseFindsTheMatch` | src/cli/regex.cpp:23-90 | the reference pattern has at most one match for an input, and the parser finds that one |
| `ReferenceGrammar.PathComponentIff` | src/cli/regex.cpp:23-40 | the machine for path components accepts exactly words of lower-case letters and digits with a dot, one or two underscores or dashes between them |
| `ReferenceGrammar.DomainIff` | src/cli/regex.cpp:43-65 | the machine for domains accepts exactly host parts with dots between them, or a bracketed address, and an optional port |
| `ReferenceGrammar.TagIff` | src/cli/regex.cpp:79 | what a tag is, up to 128 characters |
| `ReferenceGrammar.DigestIff` | src/cli/regex.cpp:82 | a digest is an algorithm, a colon and at least 32 hexadecimal digits |
| `ReferenceGrammar.AlgorithmIff` | src/cli/regex.cpp:82 | the recogniser for algorithms accepts exactly names led by a letter with one mark between them |
| `ImageReference.NameIsSpelled` | src/cli/Utility.cpp:39-69 | the parts of every name make up its text again, except for the default server and namespace of a name that does not spell them |
| `ImageReference.ServerIsRecognised` | src/cli/Utility.cpp:28-69 | what comes before the first "/" is the server exactly if it has a dot, a colon or a capital letter, or is localhost or load; else the server is docker.io |
| `ImageReference.ParseKeepsTheText` | src/cli/Utility.cpp:108-155 | every accepted input is its name, tag and digest; the tag is "latest" only if neither tag nor digest is given |
| `ImageReference.WordParses` | src/cli/Utility.cpp:39-69 | "ubuntu" is docker.io/library/ubuntu:latest, and so for every word |
| `ImageReference.UserAndImage` | src/cli/Utility.cpp:39-69 | "user/img" is docker.io/user/img:latest, for any two words of which the first cannot be a server |
| `ImageReference.ParsedName` | src/cli/Utility.cpp:28-69 | what server, namespace and image of a parsed name look like, and exactly when namespace and image read back as a remote name |
| `ImageReference.PrintedHasNoDotDot` | src/cli/Utility.cpp:81-92 | printing a parsed reference does not introduce the refused ".." |
| `ImageReference.DotDotIsRefused` | src/cli/Utility.cpp:81-92 | two dots in a row are refused anywhere in the input |
| `ImageReference.RoundTrip` | src/cli/Utility.cpp:108-155 | for every parsed reference, parsing its printed form gives it back exactly if its namespace is non-empty and holds no bracket |
| `ImageReference.NoNamespaceDoesNotReadBack` | src/cli/Utility.cpp:39-69 | "localhost/" followed by any word parses to a reference that does not read back |
| `ImageReference.BracketDoesNotReadBack` | src/cli/Utility.cpp:28-69 | "[ab]/" followed by any word parses to a reference that does not read back |
| `ImageReference.ParsedIsWellFormed` | src/cli/Utility.cpp:108-155 | every parsed reference is well-formed and has a storage key |
| `ImageReference.DashedInjective` | src/common/ImageReference.cpp:95-113 | replacing colons by dashes does not identify two digests |
| `ImageReference.KeysEqualIff` | src/common/ImageReference.cpp:95-113 | exactly when two well-formed references have the same storage key |
| `FileDescriptors.Handler.constructor` | src/runtime/FileDescriptorHandler.cpp:26-34 | a new handler preserves stdin, stdout and stderr |
| `FileDescriptors.Handler.PreservePMIFdIfAny` | src/runtime/FileDescriptorHandler.cpp:36-43 | the descriptor named by PMI_FD is preserved under that variable; a bad number is an error |
| `FileDescriptors.Handler.GetOpenFileDescriptors` | src/runtime/FileDescriptorHandler.cpp:88-107 | the open descriptors, sorted |
| `FileDescriptors.Handler.CloseUnwanted` | src/runtime/FileDescriptorHandler.cpp:49-56 | exactly the preserved descriptors stay open, on the same files |
| `FileDescriptors.Handler.DuplicateFdAndPreserveBoth` | src/runtime/FileDescriptorHandler.cpp:109-134 | both descriptors denote the file, the new one is the lowest free and above the old; on the error about a lower descriptor the duplicate stays open; without a free descriptor nothing changes |
| `FileDescriptors.Handler.MoveFdToLowestAvailableValue` | src/runtime/FileDescriptorHandler.cpp:136-163 | stays if its number is within the allowed range, else its file goes to the lowest free number |
| `FileDescriptors.Handler.Apply` | src/runtime/FileDescriptorHandler.cpp:45-86 | succeeds exactly if no forced duplication has a gap below it and descriptors and duplicates together are within the limit; then the open descriptors are exactly 0 to 2+extra and every reported number denotes the file of the original; which error means what |
| `FileDescriptors.MoveKeepsCompacting` | src/runtime/FileDescriptorHandler.cpp:136-163 | moving a descriptor above the compact block extends the block by it |
| `FileDescriptors.DuplicateKeepsCompacting` | src/runtime/FileDescriptorHandler.cpp:109-134 | a forced duplicate extends the compact block past what follows it without gap |
| `FileDescriptors.LowerMeansGap` | src/runtime/FileDescriptorHandler.cpp:109-134 | a duplicate lands below its original only if there is a gap that all earlier descriptors and duplicates do not fill |
| `FileDescriptors.ProgressFull` | src/runtime/FileDescriptorHandler.cpp:109-134 | the table is full at a forced duplication only if descriptors and duplicates together exceed the limit |
| `FileDescriptors.EnvNames` | src/runtime/FileDescriptorHandler.cpp:59-81 | a variable that one descriptor reports holds the number of that descriptor at the end |
| `FileDescriptors.EnvKeeps` | src/runtime/FileDescriptorHandler.cpp:59-81 | a variable that no descriptor reports is unchanged |
| `FileDescriptors.AnnotationStays` | src/runtime/FileDescriptorHandler.cpp:75-80 | an annotation that is set already stays |
| `FileDescriptors.AnnotationNames` | src/runtime/FileDescriptorHandler.cpp:75-80 | one that is not set gets the number of the first descriptor that names it |
| `FileDescriptors.PreserveForContainer` | src/runtime/FileDescriptorHandler.cpp:26-86 | if PMI_FD is the decimal number of an open descriptor, afterwards it is the number of a descriptor of the same file; if it is not set, or the number of a closed one, only stdio stays open and the environment is unchanged; stdio is untouched and the numbers have no gap |
| `Decimal.StoiOf` | src/runtime/FileDescriptorHandler.cpp:40-41 | for every number with spaces and a sign before it and anything but a digit after it: std::stoi reads the signed value, or is out of range outside 32 bits |
| `Decimal.NoMagnitude` | src/runtime/FileDescriptorHandler.cpp:40-41 | without a digit where the number should start there is no number |
| `Rootfs.AppendPathsWithinRootfs` | src/libsarus/utility/filesystem.cpp:272-308 | the resolver's loop computes the recursive definition of resolution |
| `Rootfs.AppendConcat` | src/libsarus/utility/filesystem.cpp:272-308 | appending a concatenation is appending its parts in turn, links traversed included |
| `Rootfs.MachineFollows` | src/libsarus/utility/filesystem.cpp:241-308 | whatever the resolver finds, the worklist machine finds in the middle of any work |
| `Rootfs.ResolverFollows` | src/libsarus/utility/filesystem.cpp:241-308 | whatever the machine finds, the resolver finds |
| `Rootfs.ResolverIsMachine` | src/libsarus/utility/filesystem.cpp:241-308 | on every link graph, cyclic ones included, the resolver ends exactly when the machine halts, with the same path and the same links in the same order |
| `Rootfs.LinkCountSuffices` | src/libsarus/utility/filesystem.cpp:272-308 | a path that resolves at all resolves within as many nested calls as there are links |
| `Rootfs.EverythingResolvesIff` | src/libsarus/utility/filesystem.cpp:272-308 | every path from every directory resolves exactly if every link's target does |
| `Rootfs.AcyclicIff` | src/libsarus/utility/filesystem.cpp:272-308 | every path from every directory resolves exactly if there is a rank that decreases from a link to every link met on the way through its target |
| `Rootfs.MergedUsrResolves` | src/libsarus/utility/filesystem.cpp:272-308 | for instance with a link from /lib to usr/lib |
| `Rootfs.ResolvedIsClean` | src/libsarus/utility/filesystem.cpp:272-308 | no prefix of a resolved path is a link, its components are ordinary names, and only links were traversed |
| `Rootfs.RealpathIsMachine` | src/libsarus/utility/filesystem.cpp:310-317 | for every well-formed absolute path: realpathWithinRootfs finds a path and a trace exactly if the machine, started on it at the root, ends there |
| `Rootfs.RealpathRefusesRelative` | src/libsarus/utility/filesystem.cpp:310-314 | a path is refused exactly if it has no leading "/" |
| `Rootfs.RealpathThroughLink` | src/libsarus/utility/filesystem.cpp:310-317 | with a link from /lib to usr/lib, the real path of /lib/f is /usr/lib/f |
| `Rootfs.RealpathIdempotent` | src/libsarus/utility/filesystem.cpp:310-317 | resolving a resolved path returns it unchanged and traverses no link |
| `SharedLibs.NameFromParts` | src/libsarus/utility/sharedLibs.cpp:66-92 | linker name and ABI numbers make up the file name again, except for a trailing dot |
| `SharedLibs.NameWithoutVersion` | src/libsarus/utility/sharedLibs.cpp:30-92 | a name that ends in ".so" is a library without numbers |
| `SharedLibs.OneDigitName` | src/libsarus/utility/sharedLibs.cpp:30-92 | the parts of a name with a one-digit version |
| `SharedLibs.NotALibrary` | src/libsarus/utility/filesystem.cpp:396-421 | names that end in ".conf" or ".cache", and names where ".so" only begins a word, are no libraries |
| `SharedLibs.SameNameSameAbi` | src/hooks/mpi/SharedLibrary.cpp:43-57 | the real name determines the ABI numbers |
| `SharedLibs.ResolveAbi` | src/libsarus/utility/sharedLibs.cpp:94-145 | the loop over the traversed links computes the running ABI of every resolvable library; when it fails |
| `SharedLibs.AbiGrows` | src/libsarus/utility/sharedLibs.cpp:108-145 | the running ABI only grows by extension |
| `SharedLibs.AbiComesFromPath` | src/libsarus/utility/sharedLibs.cpp:108-145 | the result is empty or the ABI of a traversed path with the library's linker name |
| `SharedLibs.ConsiderIgnores` | src/libsarus/utility/sharedLibs.cpp:108-123 | directories, names that are no libraries and other linker names do not count |
| `SharedLibs.OwnAbiIsPrefix` | src/libsarus/utility/sharedLibs.cpp:94-145 | exactly when the ABI in the library's own name is a prefix of the result, if the host has no directory under the path of the library in its real directory |
| `SharedLibs.OwnAbiIsPrefixIffAdopted` | src/libsarus/utility/sharedLibs.cpp:94-145 | the same for every resolvable library, whatever the host has there: exactly if a path that was adopted on the way extends it |
| `SharedLibs.PrefixIffAdopted` | src/libsarus/utility/sharedLibs.cpp:108-145 | exactly which ABIs are prefixes of the result |
| `SharedLibs.OwnAbiCanBeLost` | src/libsarus/utility/sharedLibs.cpp:108-145 | a link libm.so.1 to a directory with libm.so.2 in it, and likewise for every stem and any two digits: the result is 1 |
| `SharedLibs.OwnAbiIsPrefixWithoutNamesakes` | src/libsarus/utility/sharedLibs.cpp:94-145 | it is, when no link on the way to its directory carries the linker name |
| `MpiLibraries.MajorVersionIff` | src/hooks/mpi/SharedLibrary.cpp:43-61 | a library built from ABI numbers has a major version exactly if its real name differs from its linker name |
| `MpiLibraries.LibraryOfNumbers` | src/hooks/mpi/SharedLibrary.cpp:43-57 | the first three numbers of an ABI are major, minor and patch number, missing ones are missing, and the real name has all numbers |
| `MpiLibraries.SameRealName` | src/hooks/mpi/SharedLibrary.cpp:43-57 | libraries with the same linker and real name have the same version numbers |
| `MpiLibraries.PickNewestAbiCompatibleLibrary` | src/hooks/mpi/SharedLibrary.cpp:71-111 | the two loops compute the choice; an error exactly without candidates |
| `MpiLibraries.PickIsCandidate` | src/hooks/mpi/SharedLibrary.cpp:71-111 | the pick is a candidate and has the host's real name whenever some candidate has |
| `MpiLibraries.OldestIs` | src/hooks/mpi/SharedLibrary.cpp:80-94 | the first loop ends at the last of the oldest candidates: of all if a lower major comes before any of the host's, else of those with the host's major |
| `MpiLibraries.BestMeetsIff` | src/hooks/mpi/SharedLibrary.cpp:96-110 | the second loop reaches a fully compatible library, or one of the host's minor number, exactly if one gets past the patch guard |
| `MpiLibraries.BestMissingIs` | src/hooks/mpi/SharedLibrary.cpp:96-110 | what the patch guard compares with is the last of the newest candidates that miss the aim, or the start |
| `MpiLibraries.RivalIs` | src/hooks/mpi/SharedLibrary.cpp:96-110 | for the i-th candidate that is one candidate of the list, its rival |
| `MpiLibraries.PickIsCompatibleIff` | src/hooks/mpi/SharedLibrary.cpp:71-111 | when some candidate is fully ABI compatible: the pick is, exactly if a candidate has the host's real name, or a compatible one has a lower minor number than the host or no lower patch number than its rival, the newest contender before it |
| `MpiLibraries.PickIsCompatible` | src/hooks/mpi/SharedLibrary.cpp:28-111 | it is, if no candidate has a major below the host's or no candidate has a patch number |
| `MpiLibraries.PickIsNewestIff` | src/hooks/mpi/SharedLibrary.cpp:71-111 | the pick is the newest fully compatible candidate exactly if one has the host's real name, none has the host's minor number, or one that has it has no lower patch number than its rival |
| `MpiLibraries.PickMissesCompatible` | src/hooks/mpi/SharedLibrary.cpp:96-110 | host 5.3.0 with candidates 4.0.9 and 5.3.1: the pick is 4.0.9 |
| `MpiLibraries.PickMissesNewest` | src/hooks/mpi/SharedLibrary.cpp:96-110 | host 5.3.0 with candidates 5.2.9 and 5.3.1: the pick is 5.2.9 |
| `MpiHook.MapHostToContainerLibs` | src/hooks/mpi/MpiHook.cpp:139-161 | the nested loops compute the map from host paths to container libraries with the same linker name, in order |
| `MpiHook.MappedMembers` | src/hooks/mpi/MpiHook.cpp:139-161 | exactly which container libraries are mapped to a host path |
| `MpiHook.CheckPassesIff` | src/hooks/mpi/AbiChecker.cpp:18-69 | what each check lets pass, in terms of linker name, major and minor number |
| `MpiHook.CheckWarnsIff` | src/hooks/mpi/AbiChecker.cpp:18-69 | when each check warns, in the same terms |
| `MpiHook.ChecksPassIff` | src/hooks/mpi/MpiHook.cpp:163-235 | the checks pass exactly if some host library has a namesake, all host libraries and some namesake of each have a version, and all pairs of namesakes pass |
| `MpiHook.CheckHostLibrariesHaveAbiVersion` | src/hooks/mpi/MpiHook.cpp:163-182 | passes exactly if every host MPI library has a major version |
| `MpiHook.CheckContainerLibrariesHaveAbiVersion` | src/hooks/mpi/MpiHook.cpp:184-211 | passes exactly if every entry has some library with a major version |
| `MpiHook.CheckHostContainerAbiCompatibility` | src/hooks/mpi/MpiHook.cpp:213-235 | passes exactly if the checker passes every mapped pair |
| `MpiHook.InjectHostLibraries` | src/hooks/mpi/MpiHook.cpp:237-286 | one action per library in order, up to the first whose check or mount fails |
| `MpiHook.InjectionSucceeds` | src/hooks/mpi/MpiHook.cpp:250-286 | after the checks, injecting a library raises no ABI error |
| `MpiHook.WhatIsInjected` | src/hooks/mpi/AbiChecker.cpp:18-69 | the library mounted over is a mapped one with the host's major; always mounted over under "major" and "strict", under "full" exactly if some mapped copy is fully compatible; existing links in the root directories are kept exactly if some mapped copy has a newer minor number |
| `MpiHook.WhatIsInjectedForDependencies` | src/hooks/mpi/AbiChecker.cpp:62-69 | exactly when a dependency is mounted over a container library, and when existing links are kept |
| `MpiHook.ActivateMpiSupport` | src/hooks/mpi/MpiHook.cpp:55-74 | if those demands on the libraries are met, and only then, the libraries are injected in turn and only a refused mount can stop that; else nothing is mounted |
| `MpiHook.WhatActivationDoes` | src/hooks/mpi/MpiHook.cpp:55-286 | under the "major", "full" and "strict" checks, the fate of every host MPI library in terms of the container's libraries alone: mounted over which kind of library or into /lib, with or without keeping links |
| `CliArguments.ProcessPossibleValueInNextToken` | src/cli/Utility.cpp:176-192 | which tokens are taken |
| `CliArguments.ProcessDashDashOption` | src/cli/Utility.cpp:194-225 | a long option and, if it takes one and there is one, its value |
| `CliArguments.ProcessDashOption` | src/cli/Utility.cpp:227-269 | sticky short options and the value of the last |
| `CliArguments.GroupOptionsAndPositionalArguments` | src/cli/Utility.cpp:294-324 | options followed by positionals are the input; positionals are empty or start with a non-option; where the split is |
| `CliArguments.SplitAgain` | src/cli/Utility.cpp:294-324 | splitting the option part again returns it whole |
| `CliArguments.SplitDependsOnPrefix` | src/cli/Utility.cpp:271-293 | nothing after the first positional argument influences the split |
| `CliArguments.Roles` | src/cli/Utility.cpp:157-324 | every token of the option part is an option or the value of the option before it, and no option misses a value that follows it |
| `CliArguments.LongOptionSplit` | src/cli/Utility.cpp:194-225 | "prog --name v image": v belongs to the option exactly if the table has the option with a value |
| `CliArguments.AdjacentOptionSplit` | src/cli/Utility.cpp:199-202 | "prog --name=v image": the option takes no other token |
| `CliArguments.ShortOptionSplit` | src/cli/Utility.cpp:227-269 | likewise for "prog -x v image" |
| `CliArguments.StickyOptionsSplit` | src/cli/Utility.cpp:227-269 | "prog -xy v image": v belongs to y exactly if x takes no value and y does |
| `CliArguments.DashesArePositional` | src/cli/Utility.cpp:157-169 | "-", "--" and tokens with three dashes are positional arguments |
| `CliArguments.DashDashIsTakenAsValue` | src/cli/Utility.cpp:181-189 | "--" after an option that takes a value is its value, where the comment makes it a positional argument |
| `CliArguments.WidthAsCommentedIff` | src/cli/Utility.cpp:181-189 | for every option and every next token: code and comment agree exactly if the option takes no value, or the token does not start with a dash, or it has a single dash and more |
| `CliArguments.SplitAsCommentedIff` | src/cli/Utility.cpp:157-324 | for every command line: code and comment agree on the split and the role of every token exactly if no option is followed by such a token |
| `Lockfile.GivesUpEventuallyIff` | src/libsarus/Lockfile.cpp:30-54 | acquisition ends for every 32-bit time-out except the three largest |
| `Lockfile.GivesUpInTimeIff` | src/libsarus/Lockfile.cpp:30-54 | it ends within ceil(T/100)+1 attempts exactly for T up to 4294967200 |
| `Lockfile.Lock.CreateLockfileAtomically` | src/libsarus/Lockfile.cpp:98-116 | exclusive creation |
| `Lockfile.Lock.Acquire` | src/libsarus/Lockfile.cpp:30-54 | for any number of attempts: the first that finds the file missing succeeds, unless the time is over before; a time-out leaves the directory as it was; otherwise it is still waiting |
| `Lockfile.AcquireKeepsExclusive` | src/libsarus/Lockfile.cpp:98-116 | an attempt that succeeds makes the new object the only owner among the objects of all processes; one that fails changes nothing |
| `Lockfile.MoveKeepsExclusive` | src/libsarus/Lockfile.cpp:56-64 | ownership moves to exactly one object, other owners are unchanged |
| `Lockfile.MoveAssignKeepsExclusive` | src/libsarus/Lockfile.cpp:66-76 | one lock is handed over and the other freed |
| `Lockfile.DestroyKeepsExclusive` | src/libsarus/Lockfile.cpp:78-86 | destroying frees one lock at most; destroying a moved-from object frees none |
| `SshKeys.StepKeepsInv` | src/hooks/ssh/SshHook.cpp:57-85 | every step, errors and kills included, keeps exclusion and the progress of the generator |
| `SshKeys.MutualExclusion` | src/hooks/ssh/SshHook.cpp:57-85 | in every state of every run at most one process is between creation and removal of the lockfile |
| `SshKeys.EndingLeavesKeys` | src/hooks/ssh/SshHook.cpp:57-85 | a process that ends without error or kill leaves all three keys, whether it generated them or not |
| `SshKeys.KeptOnlyWhatIsComplete` | src/hooks/ssh/SshHook.cpp:69-75 | one that generates nothing has found all keys and was not to overwrite them |
| `SshKeys.KeysStay` | src/hooks/ssh/SshHook.cpp:57-85 | once all three keys exist with the lock free, no process without overwrite changes them, in any interleaving |
| `SshKeys.AbandonedForever` | src/libsarus/Lockfile.cpp:78-86 | a lockfile left by a killed process keeps every process out, and the keys as they are |
| `SshKeys.KillAbandons` | src/libsarus/Lockfile.cpp:78-86 | killing the process in the critical section leaves such a lockfile |
| `Flock.Descriptors.TryLock` | src/libsarus/Flock.cpp:140-147 | the lock call succeeds exactly without a conflicting lock, and keeps write locks exclusive |
| `Flock.Lock.AcquireLockAtomically` | src/libsarus/Flock.cpp:120-147 | an attempt keeps the file that is open, else opens what the path names, and holds the lock on that file exactly if it is granted |
| `Flock.Lock.TimedLockAcquisition` | src/libsarus/Flock.cpp:90-106 | for any number of attempts: ends at the first that is granted or past the time, on the file first opened; otherwise it is still waiting |
| `Flock.InodeStays` | src/libsarus/Flock.cpp:129-137 | a waiting process keeps the file it opened, whatever the path names later |
| `Flock.GrantedIff` | src/libsarus/Flock.cpp:108-147 | a read lock is to be had beside read locks only, a write lock beside no other lock |
| `Flock.GivesUpInTime` | src/libsarus/Flock.cpp:90-106 | a time-out T is given up after exactly ceil(T/100) waits |
| `Flock.Lock.ConvertToType` | src/libsarus/Flock.cpp:83-88 | conversion stays on the open file; while it waits, and if it times out, there is no lock |
| `Flock.Lock.MoveAssign` | src/libsarus/Flock.cpp:62-75 | releases what was held, and shares the source's descriptor |
| `Flock.HandOver` | src/libsarus/Flock.cpp:62-81 | once the source of a move is destroyed, the target holds no lock |
| `Flock.ReleaseAfterHandOver` | src/libsarus/Flock.cpp:149-168 | releasing the target afterwards closes a file opened in between exactly if its number is the lowest free one |
| `PasswdDB.Database.Read` | src/libsarus/PasswdDB.cpp:84-89 | appends the parsed lines; after an error, those before the bad line |
| `Lines.GetLinesUnterminated` | src/libsarus/PasswdDB.cpp:84-89 | a last line without newline is read, too |
| `PasswdDB.Database.Write` | src/libsarus/PasswdDB.cpp:30-47 | one line per entry in order |
| `PasswdDB.ParsedIsPlain` | src/libsarus/PasswdDB.cpp:91-111 | a parsed entry has no separator in a field and no empty interpreter |
| `PasswdDB.LastFieldIsOptional` | src/libsarus/PasswdDB.cpp:91-111 | a line of six fields is an entry without interpreter |
| `PasswdDB.FieldCountMatters` | src/libsarus/PasswdDB.cpp:91-99 | a line is refused for its number of fields exactly with fewer than six or more than seven |
| `Decimal.StoulToIdOf` | src/libsarus/PasswdDB.cpp:101-104 | identifiers are read modulo 2^32, and refused from 2^64 on |
| `PasswdDB.RoundTripIff` | src/libsarus/PasswdDB.cpp:30-111 | reading what was written gives the entries back exactly if no text holds a separator or newline and no interpreter is empty |
| `GroupDB.Database.Read` | src/common/GroupDB.cpp:27-32 | appends the parsed lines; after an error, those before the bad line |
| `GroupDB.Database.Write` | src/common/GroupDB.cpp:34-43 | one line per entry in order |
| `GroupDB.ParsedIsPlain` | src/common/GroupDB.cpp:53-71 | a parsed entry has no separator in a field or name and no single empty name |
| `GroupDB.LastFieldIsOptional` | src/common/GroupDB.cpp:53-71 | a line of three fields is an entry without users |
| `GroupDB.FieldCountMatters` | src/common/GroupDB.cpp:53-60 | a line is refused for its number of fields exactly with fewer than three or more than four |
| `GroupDB.RoundTripIff` | src/common/GroupDB.cpp:27-71 | reading what was written gives the entries back exactly if no field or name holds a separator or newline and no user list is a single empty name |
| `Devices.SortSorts` | src/runtime/ConfigsMerger.cpp:216-217 | the sorted list is sorted |
| `Devices.SortMembers` | src/runtime/ConfigsMerger.cpp:216-217 | the sorted list is a rearrangement of the identifiers |
| `Devices.IndexIsRank` | src/runtime/ConfigsMerger.cpp:218-223 | a device's index is the number of devices with smaller identifiers, and indexes its identifier in the sorted list |
| `Devices.OrderAgrees` | src/runtime/ConfigsMerger.cpp:218-223 | index order is the string order of the identifiers |
| `Devices.NumericOrderIff` | src/runtime/ConfigsMerger.cpp:190-223 | for devices named by numbers: the indices follow the numeric order exactly if of any two numbers the smaller is not above what the larger starts with |
| `Devices.LessDecimal` | src/runtime/ConfigsMerger.cpp:216-217 | when string order is numeric order for two numbers |
| `Devices.FewDevicesInOrder` | src/runtime/ConfigsMerger.cpp:190-223 | devices 0 to 9 keep their numeric order |
| `Devices.NineAndTenSwap` | src/runtime/ConfigsMerger.cpp:216-223 | devices 9 and 10 get the indices 1 and 0 |
| `Devices.PermutationIff` | src/runtime/ConfigsMerger.cpp:218-223 | the indices are 0 to n-1 in some order exactly if the identifiers are distinct |
| `Devices.ContainerDevicesSplit` | src/runtime/ConfigsMerger.cpp:218-225 | the container's list splits into the indices again |
| `Devices.WriteDevices` | src/runtime/ConfigsMerger.cpp:214-225 | the loop with the dropped last comma writes the joined indices |

## Left out

- ImageStore.Store.ListImages: is stated for entries whose files exist, because the clean-up of `listImages` erases from the array that its loop walks.
- The unlocked creation of the metadata file as an update: it is a step of the document invariant, but serialisability starts from an existing file.
- Backing files of images in the concurrent protocol; they are part of the store seen by one process.
- Storage keys of a tagged and a digest-only reference may coincide; `KeysEqualIff` says when, and nothing is claimed about the store then.
- The owner of sync files, and a second barrier in the same directory.
- What a mount does, creation of symlinks in the container, cgroups, setuid, setns and other effects on the operating system; the MPI hook is modelled up to the list of what is mounted where.
- Contents of JSON documents, boost::program_options and boost::regex themselves: an abstract document, a table of options and a hand-written grammar stand for them.
- Overflow of the 64-bit time counter of `Flock`, failing `close` calls, sleeping, warnings and log messages.
- Contents of ssh keys: a key file is a number, and the tools that write it may do so in several steps.
- Pulling and unpacking images, the rest of the environment of containers, lookups in the passwd database, and hooks other than those above: they call external tools or compute one value from another.
