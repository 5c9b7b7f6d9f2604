# edelib, modelled and proved

edelib is the C++ library under the Equinox Desktop Environment. This project models its
stateful core in Dafny and proves what that core keeps over every run:

- **The list** (`MergeSort`, `RingNodes`, `RingSort`, `RingList`, `RingRuns`): a ring of heap nodes
  closed by a dummy node, with insertion, removal and a merge sort that relinks the nodes in
  place. The sort is exact: it orders any strict weak order and turns each class of equal
  elements around.
- **The shared D-Bus values** (`Values`, `DictRuns`, `Blocks`, `Ownership`, `Memory`,
  `Containers`, `Handles`, `Made`, `Store`): reference-counted blocks, copied before a write.
  Every run over every number of objects shows what deep copies would show, unless it removes by
  a container that holds a NaN outside of dicts; counts are exact, ownership never has a cycle,
  nothing leaks, and no block is given back while a handle to it is left.
- **The marshaller** (`Signature`, `Wire`, `Marshal`, `Unmarshal`, `Message`, `Reading`,
  `Survival`, `Delivery`): values to D-Bus arguments and back, over libdbus as an abstract
  machine. Exactly the well-formed messages survive, of every other one it is said whether it is
  sent and what arrives, and what is read of any argument tells that argument.
- **The INI reader and writer** (`ConfigText`, `ConfigLines`, `ConfigModel`, `ConfigLookup`,
  `ConfigLoad`, `ConfigScan`, `Config`) and the lists kept in desktop files (`Tokens`, `DesktopFile`).
- **Menus** (`MenuTree`, `MenuPath`, `MenuPick`), **dates** (`Dates`), **flow layout**
  (`Layout`) and **the sdbm hash** (`SdbmHash`).

Code that changes state is modelled by classes, arrays and loops whose contracts tie the new
state to a function of the old one; the properties are lemmas about those functions.
`dafny verify dfyconfig.toml` checks everything.

## Where the code and its intent differ

The model follows the code, and says exactly when the intent holds.

- `EdbusData::operator==` compares a dict with itself (src/EdbusData.cpp:343-347), so any two
  dicts pass as equal. Doubles compare as IEEE 754 numbers (src/EdbusData.cpp:320): the two zeros
  are equal and NaN equals nothing. `Values.EqualIsEqualityIffDefinite` gives the exact condition.
- A dict takes NaN for a key, adds a new entry for it every time, and never finds it again:
  `DictRuns.RunIsMap` says exactly what becomes of every run, `NaNIsLost` shows one.
- An object compared with itself passes as equal before anything is compared
  (src/EdbusData.cpp:294-295), and elements of a shared list or variant are the same objects. So a
  container with a NaN in it equals a copy that shares with it and does not equal a copy that does
  not, unless the NaN is in a dict, inside which the comparison never looks: sharing is visible.
  `Values.LooseIsEqualIffFirm` says for exactly which values, `SharingShown` shows one,
  `Store.Program.CompareCopy` is what the code then answers, and `Store.Program.Run` what every run
  can still show.
- The object path branch of the same operator casts a C string to an `EdbusObjectPath`
  (src/EdbusData.cpp:330-334). Here the model takes the intent: paths are equal if their text is.
- Sections and keys are found by hash and by the stored name's length (src/Config.cpp:261, 441,
  448). `ConfigLookup.ACollision` is a pair of names that this confuses; `LookupExactIff`,
  `CacheTransparentIff` and `ConfigModel.RestoredIffSaveable` say when nothing goes wrong.
- A key of 128 or more characters, or 128 characters of a section's name without its "]", are
  terminated behind the end of their buffer (src/Config.cpp:170, 148). Loading ends there with the
  error `Overrun`, which stands for whatever happens then. `ConfigModel.RunGoesOn` tells by the
  text alone for which texts, and `OverrunShown` shows one.
- Copying a date goes through `Date::set`, for which year 0 is the system's year
  (src/DateTime.cpp:196-199, 222-223): `Dates.CopiedIff`.
- `Date::operator--` sets years before 1900 to 1900 (src/DateTime.cpp:350-353), and the weekday
  formula is off in year 0: `Dates.UndoNextIff`, `UndoPrevIff`, `PrevPositionIff`, `WeekdayIff`.
- `item_pathname` writes a leading "/" for an item outside every submenu and `find_item` does not
  (src/MenuBase.cpp:59, 106): `MenuPath.FoundIff`.
- `MenuItem::setonly` reads the entry before the item (src/MenuBase.cpp:160), so `SetOnly` and
  `Picked` ask for an earlier entry at which that scan stops.
- Empty arrays and dicts, and variants of the invalid value, are silently dropped when a message
  is written (src/EdbusMessage.cpp:215, 302, 357), and entries under equal keys are merged when it
  is read: `Delivery.Delivered` and `SendAndReceive` say what that leaves of any content, and
  `Survival.SurvivesIffWellFormed` when it is everything.
- `DesktopFile::create_new` has no `break` behind the directory type and runs on into the
  assertion for unknown types (src/DesktopFile.cpp:88-91). The model is of the calls that pass it.

## Model

| member | source | states |
|---|---|---|
| MergeSort.SortMeetsPromise | edelib/List.h:174-218 | for every strict weak order: the same elements, no later one less than an earlier one, each class of ties in reversed input order |
| MergeSort.PromiseIsExact | edelib/List.h:174-218 | only one sequence meets that promise, so it determines the sort |
| MergeSort.MergeTies | edelib/List.h:179-192 | a merge puts the ties of the second chain before those of the first |
| MergeSort.SortReversesTies | edelib/List.h:203-218 | ties leave the sort in exactly reversed order |
| MergeSort.SortElements | edelib/List.h:203-218 | for any comparison at all the sort keeps the elements with their number |
| MergeSort.SortImage | edelib/List.h:203-218 | sorting by what a map shows of the elements and then looking equals looking and then sorting |
| RingSort.MergeNodes | edelib/List.h:174-201 | two chains become one, relinked in place, prev links repaired, in the order that merging the sequences gives |
| RingSort.MergeStep | edelib/List.h:181-191 | one round links the smaller front node, the second chain's on a tie, and keeps all nodes apart |
| RingSort.AttachRest | edelib/List.h:194-199 | the chain that is left follows whole, its prev link repaired |
| RingSort.FindHalf | edelib/List.h:207-213 | the two-speed walk stops at the last node of the first half |
| RingSort.Cut | edelib/List.h:215-216 | cutting there leaves two well-formed chains of the same nodes |
| RingSort.MergeSortNodes | edelib/List.h:203-218 | the chain is relinked into the sorted order of exactly its nodes |
| RingList.SortRing | edelib/List.h:429-455 | a ring stays a ring through cutting, sorting and closing, its data nodes sorted, the dummy still last |
| RingList.Open | edelib/List.h:433-434 | the ring cut behind its last data node is a chain |
| RingList.Close | edelib/List.h:438-454 | the walk to the end closes the chain into a ring before the dummy |
| RingList.LinkBefore | edelib/List.h:304-307 | four link updates put a node into any ring before any position |
| RingList.Unlink | edelib/List.h:325-326 | two link updates take a node out of any ring |
| RingList.Delete | edelib/List.h:332-333 | a node is freed only if it has not been freed |
| RingList.SortFacts | edelib/List.h:429-455 | sorting nodes by their values sorts the values, each with its node |
| RingList.List.constructor | edelib/List.h:253 | empty, with no dummy yet |
| RingList.List.Begin | edelib/List.h:353 | the first element's node, or the dummy |
| RingList.List.End | edelib/List.h:365 | the dummy, or null before there is one |
| RingList.List.Insert | edelib/List.h:293-312 | the value comes before the iterator's position, every other node stays and keeps its value, the ring and the count stay right, the dummy is made on first use |
| RingList.List.Erase | edelib/List.h:320-336 | the element at the iterator goes, the result stands at its successor, exactly the other nodes stay and keep their values |
| RingList.List.PushBack | edelib/List.h:342 | appends |
| RingList.List.PushFront | edelib/List.h:348 | prepends |
| RingList.List.Next | edelib/List.h:57 | one step along the ring is one position on, from the dummy to the first |
| RingList.List.Prev | edelib/List.h:58 | one step back is one position back, so the two walks mirror each other |
| RingList.List.Get | edelib/List.h:43-46 | reads the element at the iterator's position |
| RingList.List.Set | edelib/List.h:43-46 | writes the element at that position and no other |
| RingList.List.Size | edelib/List.h:397 | the number of elements |
| RingList.List.Clear | edelib/List.h:263-283 | every data node and the dummy are freed exactly once |
| RingList.List.Equals | edelib/List.h:407-418 | true exactly for equal lengths and pairwise equal elements |
| RingList.List.Sort | edelib/List.h:429-455 | the same node objects in the sorted order, no value moved, same count and same dummy, the promise kept for every strict weak order |
| RingRuns.Exec | edelib/List.h:263-348 | each edit does to the list what it does to the sequence, and iterators on nodes that stay denote the same elements |
| RingRuns.Run | edelib/List.h:263-348 | so does every run of edits |
| Values.EqualIsEqualityIffDefinite | src/EdbusData.cpp:293-357 | the code's equality is equality for exactly the values without a dict, a NaN or a zero double in them |
| Values.DictsPassAsEqual | src/EdbusData.cpp:343-347 | two different dicts that the code takes for equal |
| Values.EqualOnBasic | src/EdbusData.cpp:300-334 | on basic values the code's equality is that of the values with one zero, and never holds for NaN |
| Values.EqualIsLoose | src/EdbusData.cpp:293-295 | what passes as equal without sharing passes with it |
| Values.EqualSelf | src/EdbusData.cpp:293-357 | a value compares as equal to a deep copy of itself exactly if no NaN is in it outside of dicts |
| Values.LooseOnFirm | src/EdbusData.cpp:293-295 | against a basic value, or one without such a NaN, sharing changes no answer |
| Values.LooseIsEqualIffFirm | src/EdbusData.cpp:293-295 | and those are exactly the values against which it never does |
| Values.SharingShown | src/EdbusData.cpp:293-357 | an array with a NaN in it, which only sharing makes equal to its copy; with a dict around the NaN sharing plays no part |
| Values.ComparedAsSeen | src/EdbusData.cpp:293-357 | for all values: the comparison sees one zero and nothing inside dicts, and answers whether both sides look the same; without sharing a NaN outside of dicts makes it fail, with it only a NaN on the left side itself does |
| Values.RemoveShifts | src/EdbusList.cpp:46-57 | remove takes out the first equal element, those behind it move up by one, and nothing changes if none is equal |
| Values.CutShifts | src/EdbusList.cpp:46-57 | the same of the element found where sharing decides which |
| Values.RemoveAllKeeps | src/EdbusList.cpp:59-70 | after remove_all each element that is not equal stands behind exactly those before it that are not, and nothing else is left |
| Values.MayLeaveIff | src/EdbusList.cpp:59-70 | where sharing decides, remove_all still keeps all that cannot pass as equal and drops all that must, in order |
| Values.MayFindFirm | src/EdbusList.cpp:46-57 | so remove by such a value finds the first equal element |
| Values.MayLeaveFirm | src/EdbusList.cpp:59-70 | and remove_all leaves exactly the unequal ones |
| DictRuns.RunIsMap | src/EdbusDict.cpp:24-96 | after any run of append, remove and clear: keys basic, pairwise unequal and of one type, values of one outer type, and find agrees with a map updated by the accepted operations; the keys are those that went in, each as and where it first did; entries under NaN stay beside the map |
| DictRuns.MirrorIsExact | src/EdbusDict.cpp:24-96 | that map with its order fits one dict only, so the run determines every entry and its place |
| DictRuns.PlaceIsKept | src/EdbusDict.cpp:51-58 | a second append under a key, here by the other zero, replaces the value in place and keeps the stored key |
| DictRuns.StepUniform | src/EdbusDict.cpp:24-85 | from any uniform dict, however it came about, each operation leads to one |
| DictRuns.StepMirrors | src/EdbusDict.cpp:24-85 | each operation keeps the dict uniform and in step with the map |
| DictRuns.AcceptsMirrors | src/EdbusDict.cpp:25-39 | what append refuses can be told from the map alone |
| DictRuns.RunCounts | src/EdbusDict.cpp:24-85 | after any run there is one entry for each key of the map and each entry under NaN, so none but the map's exactly if nothing was taken in under NaN since the last clear |
| DictRuns.LostIff | src/EdbusDict.cpp:68-85 | an entry under NaN is there exactly if one was taken in since the last clear, whatever was removed |
| DictRuns.AppendFoundIff | src/EdbusDict.cpp:24-96 | what append takes in is found under its key exactly if that is not NaN |
| DictRuns.NaNIsLost | src/EdbusDict.cpp:51-65 | a value appended twice under NaN is there twice, survives remove and is not found |
| Blocks.RetainInv | src/EdbusData.cpp:161-167 | taking a handle keeps counts exact and contents as they were |
| Blocks.DropInv | src/EdbusData.cpp:173 | giving up one of several handles does |
| Blocks.FreeInv | src/EdbusData.cpp:175-196 | giving a block back with its last handle does, its own handles passing outside |
| Blocks.AllocInv | src/EdbusData.cpp:130-159 | a new block that takes over handles does |
| Blocks.RewriteInv | edelib/EdbusContainer.h:88-114 | rewriting a block whose only handle is outside changes what no other block stands for |
| Blocks.HandleLive | edelib/EdbusContainer.h:139-144 | no handle of the program is ever dangling |
| Blocks.ChildLive | edelib/EdbusContainer.h:139-144 | no handle inside a block is |
| Ownership.Acyclic | edelib/EdbusContainer.h:88-158 | no chain of handles between blocks comes back to its start |
| Ownership.Reached | edelib/EdbusContainer.h:139-144 | every block in use is reached from a handle of the program |
| Ownership.ReachedIsLive | edelib/EdbusContainer.h:139-144 | everything a handle reaches is in use |
| Ownership.NothingLeft | src/EdbusData.cpp:169-197 | with no handle left outside, no block is left |
| Memory.Heap.Retain | src/EdbusData.cpp:165-166 | one more handle to a block |
| Memory.Heap.Release | src/EdbusData.cpp:169-177 | one handle less; with the last one the block and all it alone held are given back, and nothing else changes what it stands for |
| Memory.Heap.ReleaseChildren | src/EdbusData.cpp:179-197 | disposing gives back each handle the block owned |
| Memory.Heap.Unhook | edelib/EdbusContainer.h:88-114 | a shared container is copied, an unshared one is not; either way the result has one handle and holds the same |
| Memory.Heap.Alloc | edelib/EdbusContainer.h:119-122 | a new block with count one |
| Containers.DataEqual | src/EdbusData.cpp:293-357 | the recursive comparison of blocks computes the code's equality of their values, or, where parts are shared, at least that and at most what sharing allows |
| Containers.ItemsEqual | edelib/List.h:407-418 | the same elementwise; a list always equals itself |
| Containers.DictTakes | src/EdbusDict.cpp:25-39 | the test before the write, on blocks |
| Containers.DictAppend | src/EdbusDict.cpp:24-66 | unhook, search and write amount to append on values, for this handle only, whatever shares the block |
| Containers.DictRemove | src/EdbusDict.cpp:73-85 | the same for remove |
| Containers.DictClear | src/EdbusDict.cpp:68-71 | the same for clear |
| Containers.FindCell | src/EdbusDict.cpp:87-96 | the first entry with an equal key |
| Containers.ListAppend | src/EdbusList.cpp:27-39 | unhook and push_back amount to append on values, refused for another type in array mode |
| Containers.ListRemove | src/EdbusList.cpp:46-57 | the first element that passes as equal goes |
| Containers.ListRemoveAll | src/EdbusList.cpp:59-70 | exactly the elements that pass as equal go, the rest stays in order |
| Containers.ListClear | src/EdbusList.cpp:41-44 | the handle's list becomes empty, others' do not |
| Store.Program.Copy | src/EdbusData.cpp:161-167 | a copy shows what its source shows |
| Store.Program.Assign | src/EdbusData.cpp:199-208 | assignment, also to itself, shows the right side's value and changes no other object |
| Store.Program.Destroy | src/EdbusData.cpp:169-177 | one object goes, the others keep their values |
| Store.Program.Box | src/EdbusData.cpp:139-159 | data made from a container holds its value as of now |
| Store.Program.BoxVariant | src/EdbusData.cpp:130-137 | the same for a variant |
| Store.Program.Unbox | src/EdbusData.cpp:269-291 | the container taken out of data shows the data's value |
| Store.Program.DictAppend | src/EdbusDict.cpp:24-66 | appends to the one object, also when the value appended holds that very dict |
| Store.Program.DictFind | src/EdbusDict.cpp:87-96 | a new object with the value found, or the invalid value |
| Store.Program.ListAppend | src/EdbusList.cpp:27-39 | appends to the one object |
| Store.Program.ListRemove | src/EdbusList.cpp:46-57 | removes from the one object |
| Store.Program.ListRemoveAll | src/EdbusList.cpp:59-70 | removes from the one object |
| Store.Program.Compare | src/EdbusData.cpp:293-357 | two objects compare by their values alone if the right one is basic or has no NaN outside of dicts, else by something between that and what sharing allows |
| Store.Program.CompareCopy | src/EdbusData.cpp:161-167 | a copy equals its source unless it is a NaN itself; deep copies would give the same answer exactly for basic values and those without a NaN outside of dicts |
| Store.Program.RemoveOwn | src/EdbusList.cpp:27-57 | a value put into a list and removed again is taken out unless it is a NaN itself; on deep copies that is what happens exactly for basic values and those without a NaN outside of dicts |
| Handles.SteadyReaches | edelib/EdbusContainer.h:88-158 | a run that removes only by basic values and values without a NaN outside of dicts has one possible end, that of deep copies |
| Handles.BoxUnbox | src/EdbusData.cpp:139-159 | a container put into data and taken out is the same one, of the same kind, and the other way round |
| Made.AppendTakesIff | src/EdbusList.cpp:27-39 | append changes an array exactly if it is empty or holds an element of that type, and a struct always; then the value comes last |
| Made.RunWellMade | src/EdbusList.cpp:27-70 | after every run of the program: each array that any object shows, at any depth, holds elements of one outer type, and each dict is uniform |
| Made.ProgramWellMade | src/EdbusList.cpp:27-70 | so of all values that a program can put together |
| Store.Program.Exec | edelib/EdbusContainer.h:88-158 | every command has the effect it has on values that share nothing, or, for a removal by a container with a NaN outside of dicts, one of those between which sharing decides |
| Store.Program.Run | edelib/EdbusContainer.h:88-158 | so has every run, and the counting invariant holds at the end; without such removals sharing is never seen |
| Store.Program.GraphIsSound | edelib/EdbusContainer.h:88-158 | in every valid state counts equal the number of handles, ownership is acyclic, and the blocks in use are exactly those within reach |
| Store.Program.AllGivenBack | src/EdbusData.cpp:169-197 | when every object is destroyed every block has been given back |
| Signature.ParsePrint | src/EdbusMessage.cpp:82-142 | the grammar reads back every printed type, whatever follows it |
| Signature.PrintParse | src/EdbusMessage.cpp:82-142 | and what it reads prints as what was read |
| Signature.PrefixFree | src/EdbusMessage.cpp:82-142 | no complete type's signature is a proper prefix of another's |
| Signature.PrintInjective | src/EdbusMessage.cpp:82-142 | different types print differently |
| Wire.AppendedJoin | src/EdbusMessage.cpp:326-329 | what successive appends add to an open container is the sequence of what each adds |
| Marshal.BuildSignature | src/EdbusMessage.cpp:82-142 | the loops append the signature read off the first elements |
| Marshal.OpenCloseAppends | src/EdbusMessage.cpp:324-331 | open, fill and close append one argument, or break the message exactly if the declared signature does not fit what was written |
| Marshal.FromBasic | src/EdbusMessage.cpp:144-207 | one basic argument, none for types without a branch |
| Marshal.FromData | src/EdbusMessage.cpp:380-407 | the recursion leaves every outer container as it was, opens and closes balanced, and appends what the value stands for |
| Marshal.FromArray | src/EdbusMessage.cpp:291-332 | an array declared by its first element's signature; nothing for an empty one |
| Marshal.FromStruct | src/EdbusMessage.cpp:334-350 | a struct of the fields in order |
| Marshal.FromVariant | src/EdbusMessage.cpp:352-377 | a variant declared by its value's signature |
| Marshal.FromDict | src/EdbusMessage.cpp:209-289 | an array of entries in order, the declared signature cut at 255 characters |
| Marshal.FromEntry | src/EdbusMessage.cpp:274-285 | one entry of key and value |
| Unmarshal.ToData | src/EdbusMessage.cpp:410-593 | the reader's recursion yields the value of the argument under the cursor |
| Unmarshal.ToItems | src/EdbusMessage.cpp:547-558 | array elements in order, through append's type check |
| Unmarshal.ToAll | src/EdbusMessage.cpp:580-586 | struct fields in order |
| Unmarshal.ToEntries | src/EdbusMessage.cpp:510-540 | entries in order, through the dict's append |
| Message.SigIsPrint | src/EdbusMessage.cpp:82-142 | build_signature emits exactly the D-Bus signature of every well-formed value |
| Message.EntrySigIsPrint | src/EdbusMessage.cpp:225-263 | and so is the dict entry's declared signature |
| Message.RoundTrip | src/EdbusMessage.cpp:209-593 | every well-formed value of any depth is written as its type says and read back unchanged |
| Message.ItemsAccepted | src/EdbusList.cpp:27-39 | the reader's append refuses no element of a well-formed array |
| Message.EntriesAccepted | src/EdbusDict.cpp:24-66 | nor does the dict's append refuse or merge an entry of a well-formed dict, whose order is kept |
| Reading.Typed | src/EdbusMessage.cpp:410-593 | every argument that libdbus hands out has one complete type, whose signature is its own |
| Reading.ItemsRead | src/EdbusMessage.cpp:547-558 | of no array, from whatever sender, is an element refused |
| Reading.EntriesAreRun | src/EdbusMessage.cpp:510-540 | reading a dict is a run of appends, so entries under one key merge as there |
| Reading.ShapeRead | src/EdbusMessage.cpp:410-593 | the value read has the argument's type, if no array in it is empty |
| Reading.ReadThenWritten | src/EdbusMessage.cpp:410-593 | the value read, written in the way of the D-Bus Specification, is the argument again, for every argument without equal keys in a dict and without an empty array in a variant |
| Reading.ReadInjective | src/EdbusMessage.cpp:410-593 | so two such arguments of one signature read as one value exactly if they are equal |
| Reading.EmptyTypesLost | src/EdbusMessage.cpp:543-577 | the element type of an empty array in a variant is lost, but not that it is an array and no dict |
| Survival.SurvivesIffWellFormed | src/EdbusMessage.cpp:209-593 | a value is written as one argument and read back as it was exactly if it is well formed |
| Survival.MessageSurvivesIffWellFormed | src/EdbusMessage.cpp:619-657 | a message survives exactly if its values are well formed and its signature is within the limit |
| Survival.SurvivalShown | src/EdbusMessage.cpp:209-593 | an empty array and a dict with both zeros as keys do not survive, one with two NaN keys does |
| Delivery.SigDeclared | src/EdbusMessage.cpp:82-142 | build_signature emits the signature of the declared type also for values of which something is dropped |
| Delivery.Delivered | src/EdbusMessage.cpp:144-593 | for all values: nothing is written exactly for empty arrays and dicts and variants of the invalid value; one argument exactly if what is left is not empty, has no object path, lands everywhere as declared and within the limit; else the message breaks. What is written reads as the value without what is dropped, equal keys merged |
| Delivery.ToMessage | src/EdbusMessage.cpp:643-657 | a message is made exactly if each value is dropped or can be written and the signature of the rest is within the limit |
| Delivery.FromMessage | src/EdbusMessage.cpp:619-641 | the values of the arguments in order |
| Delivery.SendAndReceive | src/EdbusMessage.cpp:619-657 | then what is received is the content without what is dropped; and it is the whole content exactly for the messages that survive |
| Delivery.ArrivesIffWellFormed | src/EdbusMessage.cpp:144-593 | a value can be written and loses nothing exactly if it is well formed |
| Delivery.DroppedShown | src/EdbusMessage.cpp:215-357 | one message in which an empty array, a field and an entry go |
| ConfigText.LinesOfJoin | src/Config.cpp:84-126 | lines written one after the other are read as those lines |
| ConfigText.LinesOfText | src/Config.cpp:84-126 | the lines delivered are the text cut behind each newline, up to the last one, for every text |
| ConfigText.ClassifyGood | src/Config.cpp:132-182 | every name, key and value that any line yields is trimmed, free of what delimits it, and within its buffer |
| ConfigText.SectionLineBack | src/Config.cpp:132-151 | the section scanner undoes the section printer |
| ConfigText.DataLineBack | src/Config.cpp:157-182 | the key scanner undoes the entry printer |
| ConfigLines.TrimIsCore | src/StrUtil.cpp:27-70 | trimming takes blanks off both ends, all of them and nothing else |
| ConfigLines.PaddedData | src/Config.cpp:157-182 | a line with any blanks around key, "=" and value is read as that key and value, exactly if the key with the blanks behind it is within its buffer |
| ConfigLines.PaddedSection | src/Config.cpp:132-151 | the same of a section's line, whatever follows the "]" |
| ConfigLines.PaddedComment | src/Config.cpp:303-311 | lines of blanks, and lines whose first other character is "#", are passed over |
| ConfigLines.PaddedNoData | src/Config.cpp:157-165 | a line without "=" that is none of these is malformed |
| ConfigLines.PaddedOpenSection | src/Config.cpp:132-151 | a section without "]" is malformed, or overruns its buffer exactly if it is too long for it |
| ConfigModel.FindAt | src/Config.cpp:253-265 | the first stored name that the code's test takes for the one wanted |
| ConfigModel.FindSection | src/Config.cpp:435-454 | a section that passes the test if and only if there is one, the cached one first |
| ConfigModel.LoadSaveable | src/Config.cpp:270-368 | whatever any text puts in memory can be saved and restored |
| ConfigModel.RestoredIffSaveable | src/Config.cpp:270-413 | loading what save wrote restores the configuration exactly if names and keys are trimmed, delimiter-free, within the buffers and never found under an earlier one |
| ConfigModel.RunGoesOn | src/Config.cpp:303-361 | told by the lines alone: loading stops at the first line that is not blank, a comment, a good section, or a good entry with a section before it; which error it is, and the line number, follow from that line and whether a section came before |
| ConfigModel.LoadSaveLoad | src/Config.cpp:270-413 | for every text without such a long line: load, save, load gives the sections and entries of the first load |
| ConfigModel.OverrunShown | src/Config.cpp:132-151 | a section name as long as its buffer overruns it |
| ConfigLoad.LoadIsGiven | src/Config.cpp:270-368 | loading any text whose names and keys do not collide: the sections in memory are those it names, and each key has the last value the text gives it in that section, up to where loading stops |
| ConfigLoad.ConfAtStop | src/Config.cpp:303-361 | the line that stops loading, and those behind it, add nothing |
| ConfigModel.SaveSect | src/Config.cpp:388-409 | each section adds its line and those of its entries, behind an empty line unless it is the first |
| ConfigModel.SavedShown | src/Config.cpp:388-409 | the file of two sections and an entry, character by character |
| ConfigModel.OrderedDistinct | src/Config.cpp:419-429 | sections added only on a failed search have distinct names |
| ConfigLookup.ScanExactIff | src/Config.cpp:444-453 | a scan ends at the very name exactly if no earlier name collides with it |
| ConfigLookup.ACollision | src/Config.cpp:448 | a stored name and a proper extension of it with the same hash |
| ConfigLookup.NoCollision | src/Config.cpp:448 | a prefix with another hash does not pass the test, nor does a longer stored name |
| ConfigLookup.HashShown | test/strutil.cpp:65-67 | the values that the test of the hash names |
| ConfigLookup.SignShown | src/StrUtil.cpp:119-120 | a character above 127 is added as a negative number |
| ConfigLookup.ScanCanBeWrong | src/Config.cpp:444-453 | with it, a lookup finds a section that does not have the name |
| ConfigLookup.SaveCanLose | src/Config.cpp:270-413 | two sections that are saved and not restored |
| ConfigLookup.CacheTransparentIff | src/Config.cpp:440-442 | the cached section never changes an answer exactly if no two names in memory collide |
| ConfigLookup.CacheShown | src/Config.cpp:440-449 | two sections of which looking up the one makes the next lookup of the other find the wrong one |
| ConfigLookup.LookupExactIff | src/Config.cpp:435-454 | find_section answers for the very name, whatever is cached, exactly if no name in memory collides with it |
| ConfigLookup.SetThenGet | src/Config.cpp:705-709 | what has just been set is what is got, collisions or not |
| ConfigLookup.AddEntryShape | src/Config.cpp:214-238 | collisions or not, the entry found keeps its key and place and gets the value, or the new one comes last; all others stay |
| ConfigLookup.SetIsUpdate | src/Config.cpp:705-709 | without a collision set updates the map from section and key to value there and nowhere else |
| ConfigLookup.GetIsExact | src/Config.cpp:678-703 | without a collision get reads that map |
| ConfigScan.GetLine | src/Config.cpp:84-126 | the next line with its newline, none for text after the last newline |
| ConfigScan.ReadSection | src/Config.cpp:132-151 | the character loop computes the section scanner |
| ConfigScan.ReadKeyValue | src/Config.cpp:157-182 | the two character loops compute the key and value scanner |
| ConfigScan.ComputeHash | src/StrUtil.cpp:113-130 | the loop computes str_hash |
| Config.ConfigSection.FindEntry | src/Config.cpp:253-265 | the first entry whose key passes the test |
| Config.ConfigSection.Add | src/Config.cpp:214-238 | the value of the entry found is replaced, or a new entry comes last |
| Config.Config.constructor | src/Config.cpp:268 | empty and valid |
| Config.Config.Clear | src/Config.cpp:456-466 | everything reset |
| Config.Config.FindSection | src/Config.cpp:435-454 | the answer of the cached lookup, which becomes the cached section |
| Config.Config.AddSection | src/Config.cpp:419-429 | the section found or a new one, names still distinct, sectnum still their number |
| Config.Config.Set | src/Config.cpp:705-709 | contents and cache are those of set on values |
| Config.Config.Get | src/Config.cpp:678-703 | the value found, or the error for which of the two searches failed |
| Config.Config.KeyExist | src/Config.cpp:472-477 | whether get would find a value |
| Config.Config.TakeLine | src/Config.cpp:303-361 | one line's effect on sections, cache, current section, error and line number |
| Config.Config.Load | src/Config.cpp:270-368 | contents, error, line number and result of loading the text, the invariant kept |
| Config.Config.Save | src/Config.cpp:370-413 | the text of the contents, a blank line after each section but the last |
| Config.SaveAndLoad | src/Config.cpp:270-413 | a new Config that loads what was saved accepts it with the same contents exactly if these are saveable |
| Tokens.StringTok | edelib/StrUtil.h:84-100 | the tokens are put behind what the container holds |
| Tokens.FromIsRuns | edelib/StrUtil.h:84-100 | the tokens are exactly the maximal delimiter-free runs, in order, none left out |
| Tokens.ReadBackIff | src/DesktopFile.cpp:378-382 | a list joined with a delimiter behind each item is tokenized into itself exactly if its items are plain |
| DesktopFile.RunNeverBoth | src/DesktopFile.cpp:361-411 | no run of setters and lookups leaves both list keys in one section, collisions or not |
| DesktopFile.CreatedRuns | src/DesktopFile.cpp:75-97 | in particular none after create_new |
| DesktopFile.CreatedHolds | src/DesktopFile.cpp:75-97 | a new file has one section with the type alone |
| DesktopFile.DesktopFile.CreateNew | src/DesktopFile.cpp:75-97 | whatever was there before, the object is then valid and holds that type's new file |
| DesktopFile.ReadBackIff | src/DesktopFile.cpp:252-277 | the list read is the list set exactly if its items are plain and it fits the buffer, or fills it and nothing but ";" stands behind it |
| DesktopFile.SetListThenGet | src/DesktopFile.cpp:361-385 | a list that is not refused becomes the value of its key |
| DesktopFile.SetListReads | src/DesktopFile.cpp:361-411 | a refused setter changes nothing stored and what neither key reads; otherwise its key reads the list and the other still nothing |
| DesktopFile.ListShown | src/DesktopFile.cpp:378-382 | a ";" follows each item, also the last |
| DesktopFile.CutRead | src/DesktopFile.cpp:252-277 | of a list that is too long, the items in its first 254 characters are read, the last one cut |
| DesktopFile.DesktopFile.SetOnlyShowIn | src/DesktopFile.cpp:361-385 | the setter's effect on the Config, refused if the other key is there |
| DesktopFile.DesktopFile.SetNotShowIn | src/DesktopFile.cpp:387-411 | the same with the keys exchanged |
| DesktopFile.DesktopFile.SetAndShow | src/DesktopFile.cpp:252-385 | the setter and then the reader, on the object: the list comes back exactly under that condition |
| DesktopFile.DesktopFile.ShowIn | src/DesktopFile.cpp:252-277 | the list read from the Config through the buffer |
| MenuTree.Size | src/MenuItem.cpp:53-65 | on every forest's array: the length of the level with its end and all nested levels |
| MenuTree.Next | src/MenuItem.cpp:67-83 | the n-th visible entry of the level, its end if there are too few, null for negative n |
| MenuTree.GoalStep | src/MenuItem.cpp:72-82 | one step of the nesting counter brings the walk one entry nearer to it |
| MenuTree.AdvanceFlat | src/MenuItem.cpp:56-64 | the cells ahead of the walk are always the levels still open |
| MenuPath.FindItem | src/MenuBase.cpp:81-113 | the first entry whose labels joined by "/" are the name, if labels are good and paths fit |
| MenuPath.ItemPathname | src/MenuBase.cpp:47-73 | the item's name, or which of the two failures, with the exact condition for each |
| MenuPath.FoundIff | src/MenuBase.cpp:47-113 | looking for an item's printed name gives that item exactly if it is in a submenu and no earlier entry has its path |
| MenuPath.TopLevelLost | src/MenuBase.cpp:59-60 | the one item of a menu is not found under the name printed for it |
| MenuPath.PrintAndFind | src/MenuBase.cpp:47-113 | the same of the two walks, one after the other |
| MenuPath.TextInjective | src/MenuBase.cpp:47-73 | different paths of good labels read differently |
| MenuPath.PopText | src/MenuBase.cpp:64-66 | cutting at the last "/" takes off exactly the last label |
| MenuPick.RunKeeps | src/MenuBase.cpp:124-164 | whatever is picked and however often, no radio group ever has two items on |
| MenuPick.PickSelects | src/MenuBase.cpp:124-164 | a picked radio item is on and alone in its group, all else is as before |
| MenuPick.PickToggles | src/MenuBase.cpp:124-148 | a picked toggle changes over, and back when picked again; plain items, and radio items that are on, change nothing |
| MenuPick.OnlyKeeps | src/MenuBase.cpp:151-164 | setonly keeps that even where it makes two groups one |
| MenuPick.OnlySelects | src/MenuBase.cpp:151-164 | setonly makes any item a radio item that is on, turns off exactly the group it then belongs to, and leaves the rest |
| MenuPick.MenuBase.SetOnly | src/MenuBase.cpp:151-164 | the two scans turn off exactly the item's group and turn it on |
| MenuPick.MenuBase.ClearDown | src/MenuBase.cpp:154-159 | the downward scan clears exactly the rest of the group below |
| MenuPick.MenuBase.ClearUp | src/MenuBase.cpp:160-163 | the upward scan clears exactly the rest of the group above |
| MenuPick.MenuBase.Picked | src/MenuBase.cpp:124-148 | entries, value and the changed flag after a pick |
| Dates.WeekdayIff | src/DateTime.cpp:305-310 | the weekday is the day count modulo seven in every year but year 0 |
| Dates.WeekdayNext | src/DateTime.cpp:305-310 | and so advances by one, from Saturday to Sunday, with every day |
| Dates.MonthStarts | src/DateTime.cpp:51-59 | the table of days before each month sums the table of month lengths |
| Dates.MonthLengths | src/DateTime.cpp:51-59 | the tables have 31 and 30 days in turn, from January and again from August, and 28 or 29 for February |
| Dates.YearStartIs | src/DateTime.cpp:305-310 | the sum of all year lengths is the formula's |
| Dates.LaterIff | edelib/DateTime.h:322-333 | the comparison of the fields is the comparison of day counts |
| Dates.NextSerial | src/DateTime.cpp:326-337 | ++ adds one day, wrapping only at the end of year 65535 |
| Dates.StepsPosition | src/DateTime.cpp:326-337 | n times ++ moves on n days in the cycle of all dates |
| Dates.StepsSerial | src/DateTime.cpp:326-337 | and adds n to the day count exactly if the last day is not passed |
| Dates.PrevPositionIff | src/DateTime.cpp:345-361 | -- goes one day back exactly outside the first days of the years 1 to 1900 |
| Dates.UndoNextIff | src/DateTime.cpp:326-361 | -- undoes ++ exactly but on the last day of a year before 1900 |
| Dates.UndoPrevIff | src/DateTime.cpp:326-361 | ++ undoes -- exactly but on the first day of the years 1 to 1900, from which -- leads to the last day of 1900 |
| Dates.ClampAndFormulaShown | src/DateTime.cpp:305-361 | the last day of 1899, the first of 1900 and a day of year 0, where these fail |
| Dates.CopiedIff | src/DateTime.cpp:196-235 | a copy is the date itself exactly outside year 0, and a date of the calendar unless it moves 29 February |
| Dates.Date.Copy | src/DateTime.cpp:196-199 | the copy constructor, with the system's year given |
| Dates.Date.Increment | src/DateTime.cpp:326-337 | the fields after ++ |
| Dates.Date.Decrement | src/DateTime.cpp:345-361 | the fields after -- |
| Dates.Date.PostIncrement | src/DateTime.cpp:339-343 | a copy of the date as it was, and the fields after ++ |
| Dates.Date.PostDecrement | src/DateTime.cpp:363-367 | a copy of the date as it was, and the fields after -- |
| Layout.ApartIffRowsRise | src/ExpandableGroup.cpp:139-160 | for all sizes: children stand in reading order, every two at least ten pixels apart, exactly if the first child of each new row is at least as high as every child of the row before |
| Layout.OverlapShown | src/ExpandableGroup.cpp:145-160 | heights 50 and 10 in a column for one: the second child is put over the first |
| Layout.InOrderAndApart | src/ExpandableGroup.cpp:139-160 | so always for equal heights |
| Layout.Inside | src/ExpandableGroup.cpp:145-153 | for all sizes: no child that is not too wide itself leaves the area sideways |
| Layout.RowBreaks | src/ExpandableGroup.cpp:145-160 | for all sizes: a row is left exactly if the next visible child does not fit |
| Layout.FirstPlaced | src/ExpandableGroup.cpp:127-153 | for all sizes: the first visible child stands in the corner of the area, or, if it is too wide, in a row below |
| Layout.ScrollShifts | src/ExpandableGroup.cpp:135-160 | for all sizes: scrolling moves every child up by what is scrolled and changes nothing else |
| Layout.HeightToLastRow | src/ExpandableGroup.cpp:131-163 | for all sizes: area_h reaches from the border to the top of the last row and the first child's height further |
| Layout.HeightIsContent | src/ExpandableGroup.cpp:134-163 | for equal heights: area_h reaches to the lowest child's bottom |
| Layout.ExpandableGroup.RepositionChilds | src/ExpandableGroup.cpp:121-163 | after the loop: each visible child is where the flow from the group's own corner puts it, further up by what was scrolled, and inside the group's right edge if it is not too wide; area_h and sval; hidden children do not move |
| Layout.FixScrollbarOrder | src/ExpandableGroup.cpp:218-232 | in place: the others in their order, then the scrollbar |
| Layout.WithoutIs | src/ExpandableGroup.cpp:225-229 | the others are those before the scrollbar and then those behind it |
| SdbmHash.DuffHash | src/sdbm/sdbm_hash.c:28-42 | the unrolled loop entered in its middle reads exactly len characters and computes the wrapped polynomial |
| SdbmHash.PlainHash | src/sdbm/sdbm_hash.c:43-44 | so does the plain loop |
| SdbmHash.OneMore | src/sdbm/sdbm_hash.c:27 | wrapping at every step is wrapping once at the end |

## Left out

- libdbus itself: its two iterators are state machines here. Its limit on nesting depth, its limit on message length and its own checks of strings and paths are not part of this model; a call that libdbus would refuse marks the whole message as refused.
- Number ranges of D-Bus integers: numbers are carried and compared, never computed with. Of a double only what comparing needs is kept.
- `EdbusObjectPath`, `Listener`, connections, filters and timeouts.
- Memory: block addresses are never used twice, counts are not limited to 32 bits, allocation does not fail.
- Store.Program.Assign: the right side is an object of the program. An element inside a block is not modelled: with `it` over the list that `a` holds, `a = *it` releases `a`'s block first, and `impl = other.impl` then reads the element (src/EdbusData.cpp:199-208). That fails exactly if releasing the left side's handle gives back the block in which the right-hand object is stored, so if no handle but the left side's keeps that block in use.
- Containers.DictAppend: the key and the value are objects outside of the dict. `(*it).value = value` (src/EdbusDict.cpp:53-55) is the same assignment: it fails exactly if `value` is stored in a block that only the value being replaced keeps in use. A key or value stored in the dict's own entries is not modelled either; such a key would compare as the same object.
- Store.Program.DictAppend: leaves these arguments out in the same way.
- Containers.DictRemove: a key stored in the dict itself as the argument is not modelled. It would compare as the same object and be removed even if it is NaN.
- Store.Program.DictFind: a key stored in the dict itself is not modelled; it would be found even if it is NaN.
- Containers.ListRemove: an element of the list itself as the argument is not modelled. If the block is not shared it would compare as the same object and be taken out even if it is NaN.
- Store.Program.ListRemove: leaves that argument out in the same way.
- Containers.ListRemoveAll: an element of the list itself as the argument is not modelled. If the list's block is not shared and the element is not the last one, `erase` destroys it (src/EdbusList.cpp:66) and the next comparison reads it; otherwise the call is safe.
- Store.Program.ListRemoveAll: leaves that argument out in the same way.
- `EdbusDict::operator==` and `EdbusList::operator==` between objects of the program, beyond what comparing the data made of them says.
- The order in which C++ destroys the temporaries of one expression: handles are given back one statement later than there.
- Values.EqualOnBasic: takes object paths to be equal if their text is, where the code casts a C string.
- Values.EqualIsEqualityIffDefinite: takes the same of object paths.
- Containers.DataEqual: takes the same of object paths. On parts that are shared its answer is bounded from both sides and not determined, since which element objects are the same is not part of the values.
- Marshal.BuildSignature: where the code gets to the invalid value, as in a struct that holds one, it hands a null string to `String::operator+=` (src/EdbusMessage.cpp:70, 140); the model appends an empty text there.
- Iterators that stand on an erased element, and `sz` beyond 32 bits, in the list.
- `ConfigSection::remove_entry` (src/Config.cpp:240-251): it steps an iterator that it has erased.
- Files: a text stands for what is read and what is written; opening can fail, renaming does not. Characters are those of one byte, and `isspace` is that of the C locale.
- ConfigScan.GetLine: a line is a text of any length. `config_getline` writes its terminator behind its buffer when a line with its newline is exactly as long as the buffer (src/Config.cpp:123), which starts at 1024 characters and grows by 100; that is not modelled, and the texts of `LoadSaveLoad` are those that overrun no name or key buffer.
- Config.Config.Get: stops where the value is found. The conversions are left out, also the one to `bool`, which lower-cases the stored value in place (src/Config.cpp:540), and localized keys.
- The other keys of desktop files, which are plain calls of `Config::set` and `Config::get`.
- Submenus kept in another array and linked from an entry: `find_item` does not follow such links (src/MenuBase.cpp:90), and the path lemmas ask that there are none.
- `MenuPath.FindItem` and `ItemPathname` compute the array's size once instead of before every entry; nothing changes it between.
- MenuPath.FindItem: states nothing for labels that are empty or hold a "/", nor for paths that its buffers cut.
- MenuPath.ItemPathname: states nothing for such labels.
- MenuPick.MenuBase.SetOnly: asks for an earlier entry at which the upward scan stops; without one the code reads before the array.
- MenuPick.MenuBase.ClearUp: asks for the same.
- MenuPick.MenuBase.Picked: asks for the same when it turns a radio item on.
- Callbacks, drawing and event handling of menus, the visibility of the scrollbar.
- Layout.HeightIsContent: for different heights the end of `area_h` need not be the lowest bottom; `HeightToLastRow` says where it is.
- Dates that are not in the calendar, such as the zeros of an empty `Date`: the code's own assertions refuse to step them.
- The placeholders for the current month and day, and for the current year but in copies; the copy that returning by value may make. System time, time zones and `Time`.
- The rest of sdbm, and arithmetic of `long` narrower than 64 bits.
