# A verified model of zkstore and elector

The project models two libraries of dcos-go that sit on ZooKeeper, and proves what they promise.

**zkstore** keeps versioned items in a tree of znodes. An item is named by a category, a name and an
optional variant, and lives at `/base/category/buckets/N/name[/variant]`, where `N` is a hash bucket.
The main results:

- over every finite sequence of Put, Get, Variants, Delete and List by one client, the store answers as
  a plain map from keys to data and versions does, if and only if no category in use lies below the
  buckets node of another (`Refinement.RunRefines`, `Refinement.RefinesIffApart`);
- a Put into a category that does lie there leaves the answers about the other category right only in one
  narrow case, named exactly (`Intrusion.HarmlessIff`); for each of the five operations the condition
  under which it still answers as the map is given as an if-and-only-if;
- the path encoding is injective, and the one guard in `bucketsPath` is what makes it so
  (`StorePaths.PathInjective`, `StorePaths.SamePathIff`);
- over every interleaving of many clients' ZooKeeper calls, at most one Put naming a given version
  succeeds, and it replaces exactly what was read under that version
  (`Interleaving.AtMostOneVersionedPut`, `Interleaving.VersionedPutReplacesWhatWasRead`), and two both
  write only if the node was gone in between (`Interleaving.TwoWritesNeedGap`);
- a Put that reports success has stored its data if and only if no other client overtook it
  (`Interleaving.PutWritesIff`, `Interleaving.PutOutcomeIff`), and the exact interference is given under
  which deleteItem and initialize fail and what List then promises (`Races`);
- in any tree, List is exact if and only if every node below the buckets node sits in the bucket it hashes to
  (`Listings.ListExactIff`).

**elector** elects a leader among any number of processes by ephemeral sequential lock nodes, and has a
two-goroutine shutdown protocol inside each elector. The main results:

- in every run, with reads that may lag behind, an elector that considers itself leader and whose lock
  node exists owns the lowest one, so no two such electors exist (`Election.LeaderOwnsLowest`,
  `Election.AtMostOneLeader`), and it is leader in every later state in which its lock node exists
  (`Election.LeaderStays`);
- when no notification is outstanding, all running electors agree on the leader: the one-shot watches
  lose no change (`Election.QuiescentAgreement`, `Election.QuiescentLeader`); and in calm times every
  elector settles within eight steps, so that a leader is elected (`Convergence.LeaderIsElected`,
  `Convergence.OwnerOfLowestIsElected`), and another after its session ends (`Handover.SuccessorTakesOver`);
- in every interleaving of the goroutines no channel is misused, exactly one failure is reported and it
  is the last event, it is one that did happen in that run, and after Close the elector always comes to
  its end (`Shutdown.NoPanicOneFailure`, `Shutdown.EndsWithOneError`, `Failures.ReportedFailureHappened`,
  `Shutdown.FinishesAfterClose`).

## How it is laid out

| file | contents |
|---|---|
| Types, Paths, Decimal | outcomes; Go's `path` and `strings.Split`; Go's `strconv` and ZooKeeper's padded counter |
| Idents, StorePaths | names, their validation, and the path encoding |
| ZkTree | ZooKeeper as a prefix-closed map from paths to data and versions, with atomic calls; class `Conn` |
| Hashing, Settings | from a name to its bucket; the options and the configuration they produce |
| StoreSpec, Store | what each operation does to the tree in closed form; class `Store`, whose methods make the source's calls and loops and are proved to have that effect |
| Layout, PlainMap, Deletions, Listings, Refinement, Frames | the refinement to a plain map, exact listing, and what operations leave alone |
| Intrusion | categories below another category's buckets node |
| Interleaving, Races | Put, and deleteItem, List and initialize, as sequences of atomic calls among other clients |
| Sequences, Election, Convergence, Handover, Initialize | choosing a leader from a listing; the election protocol, where it settles and how leadership passes on; preparing the base path |
| Shutdown, Failures | the goroutines and channels of `start`; where the failure they report comes from |

`StoreSpec` describes each operation by its effect on the whole tree, and three independent accounts meet
there: the methods of class `Store` (`Stores.Store.Put` and the others), the plain map
(`Refinement.StepRefines`) and the step-by-step operations of the concurrent models
(`Interleaving.AloneIsPut`, `Races.RemovesAlone`, `Races.ListsAlone`, `Races.InitializesAlone`).

## What is assumed of ZooKeeper

- Each call is atomic. Set raises a version by one, Create starts at version 0 and needs the parent,
  Delete refuses a node with children.
- Versions and sequence numbers do not wrap around. The election stops handing out lock nodes when the
  counter passes the largest int32.
- In the election, a read may be answered from an older tree, but a connection never goes back in time
  and sees its own writes. A watch armed by a read that lagged fires. A session that ends takes its lock
  node with it, at any moment. Only electors write below the base path.
- No call fails for reasons of the connection in the store model. In the election and the shutdown
  models every call may fail.
- A path is readable if it is absolute and has no empty or dot segment and no trailing slash. The client
  library also refuses control characters and some other code points; names and categories cannot contain
  them, but a base path could, and that refusal is not modelled.
- The bucket function is any function from names to bucket numbers that may also fail; nothing about
  MD5 is used.

## Where the code and its documentation differ

The model follows the code.

- `Get` says a version may be asked for (zkstore/store.go:193-194), but the code ignores it. Hence
  `Frames.GetAfterPut` holds for every version asked.
- `NoPriorVersion` promises a conflict if the item exists (zkstore/store.go:135-137). Under a race two
  such Puts can both report success, wherever an item is missing (`Interleaving.CreationRace`). While
  nobody deletes, a Put that reports success has stored its data if and only if at no point of its way
  its target was already there (`Interleaving.PutWritesIff`), and of the Puts that insist on creating an
  item at most one writes it (`Interleaving.AtMostOneCreates`).
- The reserved buckets name is said to be what allows categories such as `foo` and `foo/bar`
  (zkstore/store.go:32-35). Only the last segment is looked at, which is enough for distinct paths, but
  a category like `foo/buckets/bar` is accepted and lies below the buckets node of `foo`. Used together
  with `foo` it breaks the refinement, always (`Refinement.RefinesIffApart`). After a Put into it,
  List("foo") is wrong unless the node it passes through is an item already stored
  (`Intrusion.ListAfterIntrusionIff`, `Intrusion.ListCanBeSpoiled`); Get and Variants show an empty item
  or variant that nobody stored if the segments happen to be a bucket and a name hashing to it
  (`Intrusion.GetAfterIntrusionIff`, `Intrusion.VariantsAfterIntrusionIff`, `Intrusion.PhantomItem`); Put
  meets that item where the map has none (`Intrusion.PutAfterIntrusionIff`); and Delete of the item or the
  variant fails as not empty, or conflicts with the empty node (`Intrusion.DeleteAfterIntrusionIff`,
  `Intrusion.PhantomStays`).
- Without the guard, two keys meet in one path only if the buckets name is itself a bucket number
  (`StorePaths.SamePathIff`, `StorePaths.GuardIsNeeded`).
- A Put that ends in a conflict may have created ancestors, and a Delete that ends in a conflict has
  removed the variants (`Frames.FailedPutFrame`, `Frames.DeleteSubtree`).
- `deleteItem` reports success when the hasher itself fails with `ErrNotFound`
  (zkstore/store.go:260-263); `StoreSpec.DeleteStep` does the same.

## Model

| member | source | states |
|---|---|---|
| Refinement.RunRefines | zkstore/store.go:82-351 | Over every finite sequence of operations by one client, on categories none of which lies below another's buckets node, each answer agrees with the plain map's, and the final tree still represents the final map. |
| Refinement.RefinesIffApart | zkstore/store.go:82-417 | The exact condition: every run over a set of accepted categories, from a store never written to, answers as the plain map if and only if none of them lies below another's buckets node. |
| Refinement.Disagreement | zkstore/store.go:82-417 | For any two accepted categories, one below the other's buckets node, a run of two operations on which store and map disagree. |
| Refinement.FreshRunRefines | zkstore/store.go:82-351 | The same from any tree in which the store has written nothing yet, for the categories the operations themselves use. |
| Refinement.StepRefines | zkstore/store.go:82-351 | One operation of any kind, valid or refused, keeps tree and map in step and answers alike. |
| Refinement.PutAgrees | zkstore/store.go:82-133 | Put on the tree is Put on the map: same version or conflict, a missing key touching its category and, for a variant, supplying its item, even if the Put then fails. |
| Refinement.DeleteItemAgrees | zkstore/store.go:258-289 | Deleting an item, in whatever order its variants are listed, drops it and its variants from the map, or only the variants on a conflict. |
| Refinement.DeleteVariantAgrees | zkstore/store.go:292-306 | Deleting a variant drops that key and no other, or nothing on a conflict. |
| Refinement.VariantsAgree | zkstore/store.go:222-243 | The children of an item's node are exactly the variants the map holds for it. |
| Refinement.NamesAgree | zkstore/store.go:311-351 | List returns each item of the category once and nothing else, for any bucket function and also over emptied buckets. |
| Refinement.FreshIsEmpty | zkstore/store.go:48-69 | A tree without any buckets node below the base path represents the empty map, whatever else it holds. |
| StorePaths.PathInjective | zkstore/store.go:386-417 | Two accepted identifiers have the same path string exactly when category up to a leading slash, name and variant agree. |
| StorePaths.SamePathIff | zkstore/store.go:386-417 | Without the guard, two keys share a path exactly when equal or when one is a name in a category ending in a numeric buckets name and the other the variant it spells. |
| StorePaths.GuardIsNeeded | zkstore/store.go:406-417 | A concrete pair of distinct keys that share a path, one of which the guard refuses. |
| StorePaths.BucketsPathAgrees | zkstore/store.go:406-417 | The joined and cleaned string is the rendering of base, category and buckets segments, or the guard refuses the category. |
| StorePaths.IdentPathAgrees | zkstore/store.go:386-401 | The joined string is the rendering of the key's path, and path construction fails exactly when hashing or the guard does. |
| StorePaths.VariantPathAgrees | zkstore/store.go:268-275 | The path built for a listed child of an item is that child's own node, whether or not its name would pass validation. |
| Idents.ValidNameIff | zkstore/validate.go:21-35 | A name passes exactly when made of name characters, or blank where allowed. |
| Idents.ValidCategoryIff | zkstore/validate.go:38-50 | A category passes exactly when it is "/" or slash-separated non-empty names, perhaps after one slash. |
| Idents.CategoryIsSegments | zkstore/validate.go:38-50 | A valid category is recovered from its segments, up to a leading slash. |
| Idents.SameSegments | zkstore/validate.go:38-50 | Two valid categories have the same segments exactly when they agree up to a leading slash. |
| Idents.NameCharIff | zkstore/validate.go:12-15 | The characters a name may hold, given as ranges of code points. |
| Idents.OuterSpaceIff | zkstore/validate.go:21-30 | What counts as white space, by code point, and when a name is refused for it or for being blank. |
| Idents.ValidItemIff | zkstore/item.go:22-30 | An item passes exactly when its identity does and its data has at most 1048576 bytes, and the identity's fault is the one reported first. |
| Paths.ParseRender | zkstore/store.go:156-161 | A znode path survives being written as a string and read back. |
| Paths.RenderParse | zkstore/store.go:156-161 | So does every path string ZooKeeper accepts. |
| Paths.JoinRooted | zkstore/store.go:395-400 | Joining dot-free parts under an absolute one concatenates their segments, dropping empty ones. |
| Paths.CleanRooted | zkstore/options.go:31-36 | An absolute path equal to its own cleaning is the rendering of its segments, none of them empty or dots. |
| Paths.Descend | zkstore/store.go:157-160 | Joining the i-th split segment to what came before gives the target's prefix of length i. |
| Hashing.Uvarint | zkstore/hash.go:33-37 | The byte loop meets the recursive definition, which `Hashing.UvarintMeans` pins down. |
| Hashing.UvarintMeans | zkstore/hash.go:33-37 | For every buffer: up to its first byte below 128 the bytes are the base-128 digits of the value, lowest first, summed from the other end; a value of more than 64 bits is an overflow, and a buffer without such a byte gives nothing. |
| Hashing.HashNeverOverflows | zkstore/hash.go:23-44 | Every digest of any length hashes to a value below 2^56; the overflow branch is never taken. |
| Hashing.HashOfEncoded | zkstore/hash.go:33-42 | A digest that starts with a number's varint encoding hashes to that number. |
| Hashing.HashMeans | zkstore/hash.go:23-44 | For every digest, the hash is the base-128 value of its first eight bytes up to the first one below 128, or 0 if there is none. |
| Hashing.BucketInRange | zkstore/store.go:419-427 | For every digest and positive count the bucket lies in range and is congruent to the hash; a hasher's failure is passed on. |
| Settings.BasePathIff | zkstore/options.go:27-41 | A non-empty base path is accepted exactly when it is absolute, with no empty or dot segment and no trailing slash. |
| Settings.DefaultsAre | zkstore/store.go:25-62 | A store built without options has the documented constants: buckets name, 256 buckets, everything allowed to everybody. |
| Settings.ArgumentsDecide | zkstore/options.go:14-110 | What the arguments of any list of constructor calls make of a new store: refused exactly when one is illegal, and otherwise the last non-empty base path, last name, last non-empty rules, last non-zero count, last non-nil hasher, and the bucket function they determine. |
| Settings.BuiltIff | zkstore/options.go:27-100 | A constructor yields the failing option exactly for a base path that is not a clean absolute path, a negative count, or a blank or ill-formed name. |
| Settings.LastOptionWins | zkstore/options.go:14-110 | The same on options already built, from any coherent configuration. |
| Settings.OptionsCommute | zkstore/options.go:50-87 | Options of different kinds commute wherever they stand. |
| Stores.Store.constructor | zkstore/store.go:53-62 | A new store has the default configuration, with a bucket function that matches its ingredients. |
| Stores.Store.Apply | zkstore/options.go:15-110 | One option changes what it names and keeps the bucket function coherent; an illegal one changes nothing. |
| Stores.Store.NewStore | zkstore/store.go:48-69 | A failed connection is reported; otherwise options apply in order and the store is withheld at the first failure, and the configuration invariant holds. |
| Stores.Store.MustExist | zkstore/store.go:368-383 | Answers the node's version or that it was not created. |
| Stores.Store.SetFully | zkstore/store.go:150-191 | Creates exactly the missing prefixes, empty but for the target and a variant's item; an explicit version refuses to create the target but not its ancestors. |
| Stores.Store.Put | zkstore/store.go:82-133 | New tree and answer are those of the closed form, for every item, valid or not. |
| Stores.Store.Get | zkstore/store.go:196-218 | Data and version of the item's node, whatever version was asked for; not found, or the reason it was refused. |
| Stores.Store.Variants | zkstore/store.go:222-243 | The children of the item's node, each once, in some order; not found if there is no item. |
| Stores.Store.DeleteItem | zkstore/store.go:258-289 | Deletes the listed variants whatever their versions, then the item if its version fits. |
| Stores.Store.Delete | zkstore/store.go:247-255 | The effect and answer of deleting an item or a single variant; an absent item is no error. |
| Stores.Store.List | zkstore/store.go:311-351 | As many locations as there are children of the buckets, bucket by bucket, each with the category asked for and its child's name; not found if the category was never written to. |
| StoreSpec.FillNext | zkstore/store.go:158-186 | One turn of the creation loop carries the closed form from one prefix to the next. |
| StoreSpec.FilledKeepsForm | zkstore/store.go:150-191 | Creating the missing prefixes keeps the tree prefix-closed. |
| Layouts.OneCategory | zkstore/store.go:406-417 | The buckets nodes of categories that are apart do not lie above one another. |
| Layouts.PrefixKey | zkstore/store.go:386-417 | Among known keys, a node lies above another exactly when it is the item of that variant. |
| Layouts.VariantsAreLeaves | zkstore/store.go:258-275 | The children of an item are exactly its variants, and each is a leaf. |
| Layouts.BelowBuckets | zkstore/store.go:386-401 | Two levels below a category's buckets node there are only items, each in its own bucket. |
| Deletions.DeleteLeaves | zkstore/store.go:268-275 | Deleting listed leaves one by one removes exactly them and cannot fail. |
| Deletions.DeleteItemCloses | zkstore/store.go:258-289 | Deleting an item has one outcome for every order of listing its variants, and never meets a non-empty node. |
| Deletions.DeleteAnyItem | zkstore/store.go:258-289 | In any tree, deleting an item is refused as not empty exactly when something lies below one of its children, and otherwise has one outcome for every order of listing. |
| Listings.ListExactIff | zkstore/store.go:311-351 | In any tree, List returns each item of the category once and nothing else if and only if every node two levels down sits in the bucket it hashes to. |
| Listings.ListedIff | zkstore/store.go:331-347 | A name is returned exactly when it has a node in some bucket. |
| Frames.GetAfterPut | zkstore/store.go:82-218 | What Put stored, Get returns, under the version Put answered with. |
| Frames.PutAtFrame | zkstore/store.go:82-133 | A Put changes no other node, adds only prefixes of its target, stores its data if it succeeds, and leaves an existing target alone if it does not. |
| Frames.FailedPutFrame | zkstore/store.go:91-128 | A Put that conflicts keeps every node, does not create its target, and adds only missing proper ancestors: empty, but for a variant's item. |
| Frames.DeleteSubtree | zkstore/store.go:247-306 | In any tree: refused as not empty exactly when something lies below a variant, with only childless variants gone; otherwise successful exactly when the version fits, with the subtree and nothing else gone, or in conflict, with only what lies below gone. |
| Frames.NeverBlocked | zkstore/store.go:258-289 | On categories that are apart, nothing ever lies below a variant. |
| Intrusion.HarmlessIff | zkstore/store.go:82-417 | A Put into a category below another's buckets node leaves every answer about the other categories as the map's if and only if it names a version but no variant, its category has one segment after the buckets name, and the bucket, name and variant its path spells are a variant the map already holds. |
| Intrusion.UnchangedIff | zkstore/store.go:82-191 | In exactly that case the Put changes nothing in the tree. |
| Intrusion.ListAfterIntrusionIff | zkstore/store.go:311-417 | List of every category answers as the map, but for the one intruded on exactly if the path spells an item the map already holds. |
| Intrusion.PutAfterIntrusionIff | zkstore/store.go:82-133 | A later Put answers as the map unless the path passes through its key, nobody stored that, and it does not name a version above 0. |
| Intrusion.IntrusionSpoilsListIff | zkstore/store.go:311-417 | After such a Put the other category's List returns the map's items, each once and nothing else, if and only if the bucket and name its path spells are an item the map already holds. |
| Intrusion.KeysAfterIntrusion | zkstore/store.go:150-191 | The other categories' keys keep their nodes, and exactly those the path passes through come into being, empty and at version 0. |
| Intrusion.GetAfterIntrusionIff | zkstore/store.go:196-218 | Get answers as the map unless the path passes through a key nobody stored, and then returns it empty. |
| Intrusion.VariantsAfterIntrusionIff | zkstore/store.go:222-243 | Variants answers as the map exactly when the path does not pass through the item or its next segment already was a variant. |
| Intrusion.DeleteAfterIntrusionIff | zkstore/store.go:247-306 | When Delete of an item or variant meets a non-empty node, and exactly when it answers as the map: where the path passes, only if it does not go on below a node whose version fits, and the version fits the empty node where nobody stored the key. |
| Intrusion.SpotSegments | zkstore/store.go:386-417 | Which bucket, name and variant the path spells, read off the category's segments. |
| Intrusion.PhantomItem | zkstore/store.go:82-218 | With "bar" in bucket 5, a first Put into foo/buckets/5/bar makes Get return an empty item bar of foo, where the map finds none. |
| Intrusion.PhantomStays | zkstore/store.go:82-306 | And Delete of that item is refused as not empty, where the map has nothing to delete. |
| Intrusion.ListCanBeSpoiled | zkstore/store.go:311-417 | A Put into foo/buckets/bar always makes List("foo") differ from the map. |
| Interleaving.AloneIsPut | zkstore/store.go:82-191 | Undisturbed, the single calls of a Put add up to the closed form. |
| Interleaving.AdvanceDecreasesRank | zkstore/store.go:82-191 | A Put makes finitely many calls whatever others do in between. |
| Interleaving.VersionCountsWrites | zkstore/store.go:115-129 | Over any interleaving, a node that stays rises by one version per accepted write and never otherwise. |
| Interleaving.VersionNamesData | zkstore/store.go:205-214 | Versions never go back, and equal versions mean equal data. |
| Interleaving.PutHistory | zkstore/store.go:115-129 | A Put naming a version of a node that stays is undecided, in conflict, or has written exactly once, from that version to the next. |
| Interleaving.VersionedPutReplacesWhatWasRead | zkstore/store.go:115-129 | A Put naming version v succeeds only by one write of its data over exactly what every reader of version v was given. |
| Interleaving.AtMostOneVersionedPut | zkstore/store.go:115-129 | Of all Puts naming the same version of a node that stays, at most one succeeds. |
| Interleaving.TwoWritesNeedGap | zkstore/store.go:115-129 | Over any interleaving at all, two Puts naming one version both write only if in between the node did not exist. |
| Interleaving.BothWriteAroundGap | zkstore/store.go:115-129 | For every configuration, childless item and version, an interleaving with a delete and a create in which two Puts naming that version both write. |
| Interleaving.FillingOnlyAdds | zkstore/store.go:150-191 | No call of setFully alters a node that exists. |
| Interleaving.FillSucceedsAmongOthers | zkstore/store.go:150-191 | Among any creates and sets of others, with nobody deleting, a setFully naming no version succeeds, target and ancestors exist, and the tree stays prefix-closed. |
| Interleaving.PutWritesIff | zkstore/store.go:82-191 | While nobody deletes, a Put that reports success has changed its target if and only if in no state it stood on its way there with the target already present. |
| Interleaving.PutOutcomeIff | zkstore/store.go:82-191 | A finished Put reports success if and only if it wrote or was overtaken, and it never did both. |
| Interleaving.WritesOwnData | zkstore/store.go:82-191 | A call of a Put that changes the target leaves its own data there, one version further or new at version 0. |
| Interleaving.AtMostOneCreates | zkstore/store.go:91-108 | Of all Puts that insist on creating an item, at most one writes it. |
| Interleaving.UndisturbedPutWrites | zkstore/store.go:82-191 | If nobody else touches the target from beginning to end, the data of a Put that succeeded is there at the end, under the version it answered. |
| Interleaving.OvertakenPutWritesNothing | zkstore/store.go:150-191 | Once another client has created the target while a Put is on its way, no call of that Put, earlier or later, changes it. |
| Interleaving.CreationRace | zkstore/store.go:91-108 | For every configuration, identifier and tree lacking it, an interleaving in which two Puts that both insist on creating the item both succeed; the first wrote and the second did not. |
| Races.NotEmptyIff | zkstore/store.go:258-289 | A delete of an interleaved deleteItem is refused as not empty if and only if the version fits and the node has a child that another client created since the variants were listed, or that lay below a variant already then. |
| Races.RemovedMeansGone | zkstore/store.go:258-289 | Whatever others do, deleteItem ends in success only with the item gone, in a conflict exactly when the item's version does not fit, and else only because a node has children. |
| Races.DeleteRace | zkstore/store.go:258-289 | For every configuration and item that could be deleted, an interleaving in which one variant created by another client makes deleteItem fail as not empty. |
| Races.RemovesAlone | zkstore/store.go:258-289 | Undisturbed, the single calls of deleteItem add up to the closed form. |
| Races.DeletesAlone | zkstore/store.go:258-289 | Undisturbed and from its first call, deleteItem does nothing to an absent item, and else has the effect of the closed form for some listing of the variants there were. |
| Races.ListAmongOthers | zkstore/store.go:311-351 | Every name List returns was in some bucket at some moment of the call, every name that stayed in its bucket throughout is returned, no name comes twice if none ever sits in two buckets, and the category is reported missing only if it once was. |
| Races.LayoutsGiveOneBucket | zkstore/store.go:386-401 | Where the trees hold only what the store puts there, on categories that are apart, no name ever sits in two buckets. |
| Races.ListsAlone | zkstore/store.go:311-351 | Undisturbed, the single calls of List add up to the closed form. |
| Races.InitializeFailsIff | elector/elector.go:118-143 | While nobody deletes, initialize fails if and only if another client created one of its nodes between check and create, and then because it exists; if it succeeds, the base path and its ancestors are there. |
| Races.InitializeRace | elector/elector.go:118-143 | For every tree and missing base path, an interleaving in which one create of another client makes initialize fail. |
| Races.InitializesAlone | elector/elector.go:118-143 | Undisturbed, initialize creates exactly the missing nodes and succeeds. |
| Decimal.AtoiPadded | elector/elector.go:350-354 | Reading ZooKeeper's padded counter gives it back, for every int32, negative ones included. |
| Decimal.AtoiItoa | zkstore/store.go:397-400 | Reading a printed number gives it back, for every int64. |
| Decimal.ItoaIs | zkstore/store.go:397-400 | A printed number is the only numeral of that value without leading zeros or a signed zero. |
| Decimal.DigitIff | elector/elector.go:55-55 | The digits are the ten characters 0 to 9. |
| Decimal.PaddedWidth | elector/elector.go:342-355 | ZooKeeper's counter is ten characters wide, eleven from minus a thousand million down, and has a minus exactly if it is negative. |
| Sequences.SequenceOfLockName | elector/elector.go:342-355 | Whatever the prefix, even one containing the lock marker, the sequence of a lock node is its counter. |
| Sequences.PathAndNameAgree | elector/elector.go:193-193 | A lock's full path and its bare child name give the same number. |
| Sequences.SequencePartIff | elector/elector.go:342-355 | A name has sequence n exactly when it ends in -lock-, perhaps a minus, and digits that denote n, within an int64; every other name is refused. |
| Sequences.SortedChildrenSequences | elector/elector.go:299-314 | Succeeds exactly when all names parse; the sequences come back ascending and as a permutation, and the lookup holds the last child listed for each. |
| Sequences.ChooseLeader | elector/elector.go:319-338 | Sorting and looking up finds the leader a scan finds, which `Sequences.LeaderIsLowest` and `Sequences.DeterminedIff` pin down. |
| Sequences.Leading | elector/elector.go:324-334 | The scan finds a child of lowest sequence, the last listed one if several have it. |
| Sequences.LeadsUnique | elector/elector.go:324-334 | At most one position of a listing is the last one of lowest sequence. |
| Sequences.LeaderIsLowest | elector/elector.go:319-338 | The leader is a listed child, none is lower, and leading is having its number. |
| Sequences.DeterminedIff | elector/elector.go:319-338 | A leader is determined exactly when there is a child and own node and every child have a sequence. |
| Sequences.LockNamesDecide | elector/elector.go:319-338 | Over the names ZooKeeper gives to distinct counters, a leader is always determined, and the one who holds the lowest counter leads. |
| Sequences.OrderDoesNotMatter | elector/elector.go:319-338 | With distinct sequences the verdict is the same for every order of the listing. |
| Sequences.OneListingOneLeader | elector/elector.go:319-338 | Over one listing all agree on the leader, and any two that claim it have the same number. |
| Election.LeaderData.constructor | elector/elector.go:191-191 | An elector starts without a leader, not leading, with its first update to come. |
| Election.LeaderData.Update | elector/elector.go:192-267 | The update overwrites leader and leadership and sends an event on the first update and on every change, as the election's steps assume. |
| Election.NextKeepsInv | elector/elector.go:183-229 | Every step of every elector, lagging reads and expiring sessions included, keeps the election's invariant. |
| Election.DecideSound | elector/elector.go:193-196 | A verdict drawn from a listing, even one that lagged, claims leadership only if nothing lower exists from then on. |
| Election.StopsIff | elector/elector.go:192-204 | An elector stops in a step exactly if a call fails, it decides over an empty listing, or the node whose data it fetches is gone. |
| Election.SoundAfterChange | elector/elector.go:206-225 | A later lock node, or the loss of one, overturns nobody's claim and reaches every armed watch. |
| Election.LeaderOwnsLowest | elector/elector.go:183-204 | In every run, an elector that considers itself leader has a lock, and if that node exists it is the lowest. |
| Election.AtMostOneLeader | elector/elector.go:183-204 | No two electors with existing lock nodes both consider themselves leader. |
| Election.LeaderStays | elector/elector.go:183-229 | A leader is leader in every later state in which its lock node exists, however many steps later; its lock is never another. |
| Election.LockKept | elector/elector.go:183-189 | A lock is never exchanged, and a lock node once gone does not come back. |
| Election.QuiescentAgreement | elector/elector.go:206-225 | With no event outstanding and no update under way, every running elector reports the lowest node's data, and leads exactly if it owns that node. |
| Election.QuiescentLeader | elector/elector.go:206-225 | If the owner of the lowest node is running, it and it alone leads. |
| Election.EventStream | elector/elector.go:191-204 | A completed update has sent an event, events alternate, and the last one is the current standing. |
| Convergence.SettlesWithinEight | elector/elector.go:206-225 | With reads of the latest tree and no create, expiry or failure, no elector takes more than eight steps, and after eight it has stopped or waits on a watch that has not fired. |
| Convergence.CanGoOn | elector/elector.go:206-225 | An elector that has not settled can always take a step. |
| Convergence.CalmComesToRest | elector/elector.go:206-225 | From every state the election can come to, calm times lead to one in which no step is left to take. |
| Convergence.LeaderIsElected | elector/elector.go:183-229 | There the election is quiescent, and if the owner of the lowest lock node has not stopped, it and it alone leads and every running elector reports its data. |
| Convergence.OwnerOfLowestIsElected | elector/elector.go:183-229 | If calm times begin while the owner of the lowest lock node is about to list or waits for an event, it does not stop, and when no step is left it and it alone leads. |
| Handover.SuccessorTakesOver | elector/elector.go:183-229 | If at rest the session of any elector ends, then once all is calm again the owner of what is then the lowest lock node has not stopped, it alone leads, and every running elector reports its data. |
| Handover.OneAfterAnother | elector/elector.go:183-229 | From every beginning there is a run in which one elector alone leads, its session ends, and another one alone leads. |
| Initialization.Initialize | elector/elector.go:118-143 | Creates exactly the missing nodes down to the base path, empty; a malformed path changes nothing. |
| Shutdown.NextKeepsInv | elector/elector.go:145-242 | Every step of either goroutine, of `start` or of the environment keeps the shutdown invariant. |
| Shutdown.NoPanicOneFailure | elector/elector.go:145-242 | In every interleaving nothing is sent on or done twice to a closed channel, at most one value is placed in errch and it is a failure, and it is there before anyone is told to quit. |
| Shutdown.EndsWithOneError | elector/elector.go:237-242 | When `start` ends, exactly one failure was placed, exactly one error event was attempted, it carried that failure and came last, and events is closed; `Failures.ReportedFailureHappened` says where that failure comes from. |
| Shutdown.DeliveredUntilClose | elector/elector.go:283-294 | Until Close is called the client receives every event, in order. |
| Shutdown.StepDecreasesMeasure | elector/elector.go:145-242 | With finitely many notifications to come, every step brings the end closer. |
| Shutdown.RunsAreShort | elector/elector.go:145-242 | No run is longer than its first state's measure. |
| Shutdown.NeverStuck | elector/elector.go:283-294 | After Close, once a goroutine has failed, some step is possible without a reader, a notification or a caller, until `start` has ended. |
| Shutdown.FinishesAfterClose | elector/elector.go:145-294 | So a run that cannot go on unaided after Close and a failure has reached the end of `start`. |
| Failures.HarmlessIff | elector/elector.go:244-253 | A session event is harmless exactly when it carries no error and one of the five healthy states; a carried error is returned as it is, and an unhealthy state as that state. |
| Failures.ReportedFailureHappened | elector/elector.go:145-242 | In every interleaving the value in errch, and so the error event at the end, is the error or bad state of a session event of that run, the error of a call that failed, or the end of the child events. |
| Failures.BadEventIsReported | elector/elector.go:156-173 | A bad session event the watcher takes is what it goes on to report, and it reaches errch unless another failure is there already; a harmless one leaves it waiting. |
| Failures.FailureIsReturned | elector/elector.go:176-235 | A failed call or the end of the child events is what the worker goes on to return, and it reaches errch unless another failure is there already; a good child notice makes it list again. |
| Failures.EachCanBeReported | elector/elector.go:156-235 | In every state the protocol can come to with errch empty, any bad event, failed call or end of the child events can happen where it is waited for, and two steps put it into errch. |
| Failures.EachFailureHasItsRun | elector/elector.go:145-242 | For every failure there is a run of `start`, from beginning to end, that reports just that one. |
| Failures.CanGoAround | elector/elector.go:213-225 | A worker that waits can take a good notice, list and update with either verdict, and hands over an event exactly if there is a change. |
| Failures.ReaderReceives | elector/elector.go:283-294 | A reader can receive exactly when an event is being sent, gets that event, and lets its sender go on. |
| Failures.PanicsIff | elector/elector.go:145-242 | What counts as misuse of a channel: exactly a send on a closed one or a second close. |
| Failures.CallsInOrderThroughout | elector/elector.go:179-212 | The base path is prepared before the lock is created, that before the children are listed, and that before any update or event. |

## Left out

- Refinement.RunRefines: for categories none of which lies below another's buckets node; for the others it is false, with the exact condition in `Refinement.RefinesIffApart` and what goes wrong in `Intrusion`.
- Stores.Store.Put: one client at a time; Put among other clients is modelled on values in `Interleaving`.
- Stores.Store.Delete: one client at a time; deleteItem among other clients is modelled on values in `Races`.
- Stores.Store.List: one client at a time; List among other clients is modelled on values in `Races`.
- Initialization.Initialize: one client at a time; initialize among other clients is modelled on values in `Races`.
- Interleaving.PutWritesIff: while nobody deletes; a target deleted and created again during the Put is not covered.
- Interleaving.AtMostOneVersionedPut: for a node that exists throughout; otherwise it is false (`Interleaving.BothWriteAroundGap`), and `Interleaving.TwoWritesNeedGap` says what remains.
- Convergence.LeaderIsElected: an elector that fetches the data of a lock node that has gone stops, as in the code (`Election.StopsIff`), so the owner of the lowest lock node may have stopped before calm times began; `Convergence.OwnerOfLowestIsElected` excludes that.
- Settings.BasePathIff: the control characters that the client library refuses in a path are not modelled.
- Election.LeaderOwnsLowest: says nothing of an elector whose session has expired without its noticing; such an elector may still consider itself leader, as in the code.
- Election.NextKeepsInv: sequence numbers are assumed to increase and to stay within an int32.
- Shutdown.DeliveredUntilClose: after Close an event may be dropped, as in the code.
- Connectors, authentication, session timeouts and reconnects (zkstore/connector*.go, elector/connector*.go): network set-up; only their success or failure is a parameter.
- ACLs: configured and passed on, but ZooKeeper's checks of them are not modelled.
- The hash functions themselves: any function from names to digests.
- int32 wrap-around of versions.
- `Close`, `LeaderIdent` and its mutex, `Start`'s check for a blank identity, `Version.Clear`, `String` methods, `LocationsByName` and error texts: trivial or formatting.
- The election and the goroutines of `start` are modelled as state machines over their atomic steps, not as methods: there is no concurrency inside a method here.
- store/store.go: each method is one map operation under a lock and would only add easy members.
- dcos/http/transport, dcos/nodeutil, exec, testutils, examples and scripts: HTTP, processes, DNS and test support.
