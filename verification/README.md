# Pokémon name bot — a Dafny model of its matching and list logic

The bot watches a Discord channel for the embed a Pokémon-spawning bot posts
("A wild Pokémon …"), compares the spawned image with a folder of reference images
(the *dataset*), and replies with the name of the closest one. It also keeps, per user,
an interest list that `cl add` grows and `cl list` prints in numbered pages of 50.

This project models the decision logic of `index.js` as pure Dafny functions and proves
what that logic guarantees:

- **Catalog** (`dataset.dfy`, `nodepath.dfy`): which directory entries become catalog
  entries (`.png`, `.jpg`, `.jpeg`, case-sensitive), how each is named
  (`path.basename(file, path.extname(file))`, Node's POSIX rules), and how loading
  into a JavaScript object collapses files with the same name: the name keeps the
  position of its first file and the buffer of its last.
- **Distance** (`imagedistance.dfy`): `compareImages` as a sum of absolute byte
  differences, `Infinity` on a length mismatch; a metric on equal-length buffers.
- **Matching** (`matcher.dfy`): `findPokemonByImage` as a fold over the catalog
  that skips `null` buffers and replaces the best only on a strictly smaller score, so
  the first entry reaching the minimum wins; and the reply gate that follows it.
- **`cl add`** (`pings.dfy`, `jstext.dfy`): the argument text is
  `content.split(' ').slice(3).join(' ')`, split on commas, trimmed, empties dropped;
  each name not yet in the list is appended and reported added, any other is reported
  as already present.
- **`cl list`** (`chunks.dfy`, `pings.dfy`): `splitIntoChunks` and the numbering
  `index + 1 + i * 50` of each page.

JavaScript's `String.prototype.trim`, `split` and `join` with a one-character separator
and `endsWith` are modelled in `jstext.dfy`; Node's `path.extname` and `path.basename`
for a single directory entry name in `nodepath.dfy`. The in-memory `pings` object is a
Dafny `map` from user id to record; a JavaScript object used as the buffer store is an
ordered sequence of uniquely named entries (the special key `__proto__` aside; see
"Left out"). Image decoding is a parameter: the model takes
the decoded byte buffers (or `None` for `null`) as input.

Three consequences of the code as written, which the model keeps: a name repeated within
one `cl add` batch goes to `alreadyInList` on its second occurrence, because the first
occurrence has already been pushed; nothing pings the users whose list holds the matched
name, since the image handler only replies with that name; and `cl list` gives a user
without a record and a user with an empty list the same reply.

## Model

| member | source | states |
|---|---|---|
| `ImageDistance.Distance` | index.js:87-93 | mismatched lengths give `Infinity` and only they do; a finite score is at most 255 per byte, so a double holds it exactly |
| `ImageDistance.CompareImages` | index.js:87-93 | the summing loop returns exactly the reference distance: `Infinity` on a length mismatch, else the sum of absolute byte differences |
| `ImageDistance.DistanceSymmetric` | index.js:87-93 | comparing `a` with `b` scores the same as comparing `b` with `a` |
| `ImageDistance.DistanceZeroIffEqual` | index.js:87-93 | the score is 0 exactly when the two buffers are identical |
| `ImageDistance.DistanceTriangle` | index.js:87-93 | on equal-length buffers the score obeys the triangle inequality |
| `ImageDistance.DistanceMismatch` | index.js:87 | a length mismatch scores `Infinity` |
| `ImageDistance.L1Bound` | index.js:89-92 | the sum of absolute differences is at most 255 times the length |
| `Matcher.FindPokemonByImage` | index.js:96-109 | the scan reports a name exactly when its score is finite |
| `Matcher.FindPokemonByImageSpec` | index.js:96-109 | no name exactly when no entry has a non-null buffer of the incoming length; otherwise the name and score of the first entry with the least score |
| `Matcher.FirstBestUnique` | index.js:102 | strict `<` makes the winning entry unique: at most one entry is first among the minima |
| `Matcher.NullEntriesSkipped` | index.js:100 | entries with a `null` buffer never change the result |
| `Matcher.LaterDuplicateNeverFirst` | index.js:102-104 | in any catalog, of two entries holding the same buffer the later one is never the first best entry, the entry whose name the search reports |
| `Matcher.TieGoesToFirst` | index.js:102-104 | in the catalog A, B whose two entries share one buffer, A is reported for every comparable incoming buffer |
| `Matcher.Identify` | index.js:221-225 | a reply is non-empty and names the first entry with the least score against the decoded incoming image; a reply is sent whenever some entry is comparable with that image and no first best entry has an empty name |
| `Matcher.IdentifyOnBuiltCatalog` | index.js:221-225 | on a catalog built at startup, a decoded image gets a reply exactly when some entry is comparable with it, and the reply names the first best entry |
| `Dataset.DatasetFilesMembers` | index.js:22-23 | the filter keeps exactly the listing's entries ending in `.png`, `.jpg` or `.jpeg` |
| `Dataset.DatasetFilesSingle` | index.js:22-23 | a one-entry listing keeps its entry exactly once when it is an image file and drops it otherwise |
| `Dataset.DatasetFilesAppend` | index.js:22-23 | the filter keeps listing order |
| `Dataset.DatasetNameSpec` | index.js:25 | a file is named by what precedes its image extension; a file that is only `.png`, `.jpg` or `.jpeg` keeps its whole name; the name is never empty |
| `Dataset.DatasetNameNonEmpty` | index.js:23-25 | every file passing the extension filter gets a non-empty name |
| `Dataset.DataFilesSpec` | index.js:22-27 | every element of the `dataset` array is an image file of the listing whose non-empty name is the file name without its extension (the whole name for a bare `.png`, `.jpg` or `.jpeg`), and every image file of the listing is in the array |
| `Dataset.DataFileNamed` | index.js:23-25 | the name derived for an image file is the file name with the extension it ends with cut off, or the whole name when it is only that extension |
| `Dataset.DataFilesSingle` | index.js:22-27 | a one-entry listing gives exactly one named dataset file when it is an image file and none otherwise |
| `Dataset.DataFilesAppend` | index.js:22-27 | the `dataset` array keeps listing order: a concatenated listing gives the concatenated arrays |
| `Dataset.Put` | index.js:52 | assigning a key keeps names unique, appends a new name at the end, keeps an existing name in place with the new buffer, and changes no other key (ordinary keys; `__proto__` is under Left out) |
| `Dataset.Load` | index.js:49-55 | the loaded buffer object never holds a name twice |
| `Dataset.LoadNames` | index.js:49-55 | the catalog holds each distinct dataset name once, in order of first appearance |
| `Dataset.LoadBuffers` | index.js:51-53 | each catalog name holds the buffer loaded from the last dataset file with that name |
| `Dataset.CatalogMembership` | index.js:22-27 | a name is in the catalog exactly when some image file of the listing carries it (`__proto__` aside, see Left out) |
| `Dataset.CatalogNamesNonEmpty` | index.js:22-27 | every catalog name is non-empty, so a best match's name is always truthy |
| `NodePath.LastIndexOf` | index.js:25 | the position found holds the character and no later position does; none means the character is absent |
| `NodePath.ExtNameSpec` | index.js:25 | `path.extname` is empty or a proper suffix starting with its only dot; it is non-empty whenever a dot follows the first character (other than for `..`) |
| `NodePath.BaseNameSpec` | index.js:25 | `path.basename(name, suffix)` cuts a suffix the name ends with from its end, gives "" when the suffix is the whole name, and leaves the name unchanged for an empty suffix or one it does not end with |
| `Chunks.SplitIntoChunks` | index.js:41-47 | chunks are non-empty and at most `chunkSize` long, all but the last exactly `chunkSize`; none exactly for an empty array |
| `Chunks.ChunksFlatten` | index.js:41-47 | concatenating the chunks gives the array back |
| `Chunks.ChunkCount` | index.js:43 | the chunks cover the array; the last holds what remains after the full ones |
| `Chunks.ChunkElement` | index.js:43-44 | element `j` of chunk `i` is element `i * chunkSize + j` of the array |
| `JsText.Trim` | index.js:177 | the trimmed string has no whitespace at either end |
| `JsText.TrimSpec` | index.js:177 | `trim` removes only whitespace, and only at the two ends |
| `JsText.TrimKeepsAbsent` | index.js:177 | trimming never introduces a character, so trimmed comma-free pieces stay comma-free |
| `JsText.Split` | index.js:176-177 | `split` on one character yields at least one piece and no piece holds the separator |
| `JsText.JoinSplit` | index.js:176 | joining the pieces of a split with the same separator gives the text back |
| `JsText.SplitJoin` | index.js:177 | splitting a join of separator-free pieces gives the pieces back |
| `Pings.CommandArgsAfterPrefix` | index.js:176 | after three command words and one space the argument text is everything that follows, spaces included |
| `Pings.CommandArgsPrefixOnly` | index.js:176 | with only the three command words the argument text is empty |
| `Pings.CleanNames` | index.js:177 | trimming and dropping empties never grows the list and leaves no empty name |
| `Pings.CleanNamesSingle` | index.js:177 | one piece is kept, trimmed, exactly when its trimmed form is non-empty |
| `Pings.CleanNamesAppend` | index.js:177 | cleaning keeps piece order: cleaning a concatenation concatenates the cleaned parts |
| `Pings.CleanNamesKeeps` | index.js:177 | every piece whose trimmed form is non-empty is kept, trimmed |
| `Pings.CleanNamesTrimmed` | index.js:177 | every cleaned name is trimmed, and comma-free when the pieces were |
| `Pings.ParseNames` | index.js:177 | every parsed name is non-empty, trimmed and comma-free |
| `Pings.ParseNamesOfJoin` | index.js:177 | comma-joined pieces parse back to the cleaned pieces; comma-joined names parse back to themselves |
| `Pings.AddAll` | index.js:192-199 | the loop only appends, the added names in order, and the two reports together are as long as the batch of parsed names |
| `Pings.AddAllReportsEveryName` | index.js:192-199 | the two reports together hold every parsed name exactly as often as the batch does, so no name is lost or reported twice |
| `Pings.AddAllPartition` | index.js:192-199 | a name is added exactly when it is in neither the old list nor earlier in the batch; the rest are reported as already present, both in batch order |
| `Pings.AddAllContents` | index.js:192-199 | every parsed name and every old entry ends up in the list; a list without duplicates stays without |
| `Pings.AddAllPresent` | index.js:192-199 | when every name is already listed nothing is added and all are reported |
| `Pings.AddAllRepeatedInBatch` | index.js:192-199 | `Pika, Pika, Bulba` on an empty list adds `Pika` and `Bulba` and reports the second `Pika` |
| `Pings.AddNames` | index.js:179-199 | no names gives the error reply and an unchanged store; otherwise the record is created if missing, the list grows by the added names, `afk` is kept (false for a new record), and no other user changes |
| `Pings.AddNamesSpec` | index.js:179-199 | the reply partitions the names as the loop does, every name ends up in the list, no duplicate is introduced |
| `Pings.AddNamesTwice` | index.js:179-199 | sending the same names again changes nothing and reports all of them as already present |
| `Pings.AddInterestOfCommand` | index.js:175-199 | a message of the three command words, a space and a text acts on exactly the names parsed from that text |
| `Pings.AddInterestNothing` | index.js:176-181 | a command whose text names nothing is refused and changes nothing |
| `Pings.ListInterest` | index.js:158-172 | pages are produced exactly when the user has a non-empty list; each page holds 1 to 50 lines |
| `Pings.ListInterestLine` | index.js:163-167 | line `j` of page `i` shows number `i * 50 + j + 1` and the list element at that position |
| `Pings.ListInterestCovers` | index.js:158-169 | every list element appears, numbered by its position plus one, on page `k / 50` at line `k % 50` |

## Left out

- Discord I/O: the client, the `messageCreate` dispatch on the hard-coded mention
  prefix, the check that the embed comes from the spawning bot with a "A wild Pokémon"
  title and an image URL, and the reply calls themselves.
- Reply text: the "Added … / … are already in your ping list." string, the
  "no Pokémon" message and the `**Your Pokémon List:**` header are represented by the
  `AddReply` and `Listing` values they are built from, not as strings.
- `processImage` (file read or HTTP download, then `sharp` resize) and the raw decode in
  `compareImages`: image decoding is foreign code; the model takes the decoded buffers,
  or `None` where the source gets `null`, as inputs (`load` for dataset files).
- `createImageWithText`, the special-server choice between a text and an image reply,
  and the four-second `setTimeout` that deletes the reply: rendering and timers.
- Reading `config.json`, loading `pings.json` at startup, and `fs.writeFileSync` after
  `cl add`: persistence. A loaded record without a `pokemonList` field is not modelled;
  every record holds a list.
- Concurrency: handlers run as interleaved async tasks in the source; the model runs
  each command atomically on the store.
- `Object.entries` ordering of integer-like keys (JavaScript lists those first, in
  numeric order); the catalog keeps plain insertion order.
- `path.join` of the folder and the file name, and Node's handling of `/` in names:
  directory entries hold no separator.
- Scores as JavaScript doubles: the model uses exact integers, which agree with doubles
  for buffers shorter than 2^53 / 255 bytes (the bound `ImageDistance.Distance` states).
- A `chunkSize` of zero or less: `splitIntoChunks` loops forever on a non-empty array
  then; the model requires a positive size, and the only caller passes 50.
- Dataset.Put: treats every name as an ordinary key. In the source, a dataset file named
  `__proto__.png` (or `.jpg`, `.jpeg`) assigns the buffer object's prototype instead of
  creating a key, so that name never appears in `Object.entries` and can never be matched.
  A later name whose inherited accessor has no setter would then be dropped as well. The
  model appends `__proto__` like any other name. Reproducing JavaScript's prototype rules
  is outside this model.
- Dataset.CatalogMembership: for the same reason, a listing file named `__proto__` plus an
  image extension makes its name a catalog member in the model but not in the source.
- JavaScript strings are sequences of UTF-16 code units, while the model's strings are
  sequences of Unicode characters. `trim`, splitting at `,` and at a space, `includes` and
  the non-empty test agree on well-formed text, so no behaviour is lost there. Lone
  surrogates are not modelled.
