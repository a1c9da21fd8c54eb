# PatriciaTrie server core in Dafny

A model of the sequential core of the PatriciaTrie autocomplete server, with its properties proved. It covers three parts.

- **The index operations of a core** (`PatriciaOps`). A core owns one shared trie. The trie maps each *derived key* (a key the analyzer computes from an indexed string) to the string.
  - `put` writes every derived key of every input string.
  - `remove` deletes every derived key of every input string.
  - `getPrefixedBy` answers a query. It takes the values stored under keys that start with the query's search key, keeps the ten smallest of them in String order, and ranks those ten with the distance comparator.
  - `getPrefixedByCount` is the length of that answer.
  - `size`, `firstKey` and `lastKey` read the trie.
  - The enqueue job resolves collisions: it puts whichever string the analyzer prefers for each contested key.
- **Configuration post-processing** (`Config`).
  - `setupCores` rejects two cores that share a path. It also decides whether an index handler is needed.
  - `handleSystemProperties` copies each `patricia.a.b.c=v` system property into the nested configuration map. The value lands at `conf[a][b][c]`, and missing levels are created along the way.
- **Context paths and URLs of a handler core** (`handler/Core`).
  - The context path is normalised to `"/"` followed by the path stripped of `'/'`.
  - The add, api and status URLs are built from the context path.

Files, one Dafny module each:

- `common.dfy` (`Common`): Option, Result and distinctness.
- `java_string.dfy` (`JavaString`): `String.compareTo` and `String.split("\\.")`.
- `string_utils.dfy` (`StringUtils`): `StringUtils.strip` with one strip character, and `isBlank`.
- `collections.dfy` (`Collections`): building a `TreeSet<String>` and `Collections.sort` with a comparator.
- `index_spec.dfy` (`IndexSpec`): each trie operation as a function on values, and the properties of those functions.
- `patricia_ops.dfy` (`Ops`): the class `PatriciaOps`. It holds the trie as a mutable field. Its methods are proved to compute the `IndexSpec` functions and what the queries promise.
- `config.dfy` (`Conf`): the class `Config` with `SetupCores`, and the property walk.
- `core.dfy` (`Handler`): the handler core and its URLs.

The analyzer (`PartialMatchAnalyzer`) and `DistanceComparator` are not part of this model. They enter as the fields of an `Analyzer` value:

- a derived-key list per string;
- a prefix search key per query;
- a preference between two strings;
- a comparator per query.

Each property assumes only the hypotheses it names. Typical ones are `WellFormed`, meaning key lists are non-empty and duplicate-free and each comparator is a total preorder, and `PrefersAnArgument`, meaning the preference returns one of its two arguments.

## Model

| member | source | states |
|---|---|---|
| Ops.PatriciaOps.FirstKey | src/main/java/com/jeraff/patricia/server/ops/PatriciaOps.java:71-73 | none exactly when the trie is empty; otherwise a present key smaller in String order than every other key |
| Ops.PatriciaOps.LastKey | src/main/java/com/jeraff/patricia/server/ops/PatriciaOps.java:75-77 | none exactly when the trie is empty; otherwise a present key greater in String order than every other key |
| Ops.PatriciaOps.Size | src/main/java/com/jeraff/patricia/server/ops/PatriciaOps.java:79-81 | the size is zero exactly when the trie has no key |
| Ops.PatriciaOps.Put | src/main/java/com/jeraff/patricia/server/ops/PatriciaOps.java:83-105 | the new trie is `PutAll` of the old one; the answer has an entry for exactly the input strings, each mapped to its own derived-key list in derivation order; the size never drops |
| Ops.PatriciaOps.GetPrefixedBy | src/main/java/com/jeraff/patricia/server/ops/PatriciaOps.java:111-127 | empty exactly when no key starts with the search key; otherwise duplicate-free, min(10, number of matching values) long, only matching values, and each answer precedes in String order every matching value left out (cap before rank); sorted by the distance comparator, with ties in String order |
| Ops.PatriciaOps.GetPrefixedByCount | src/main/java/com/jeraff/patricia/server/ops/PatriciaOps.java:129-131 | equals min(10, number of distinct matching values), so it lies between 0 and 10 |
| Ops.PatriciaOps.Remove | src/main/java/com/jeraff/patricia/server/ops/PatriciaOps.java:133-145 | the new trie and the answer are `RemoveAll` of the old trie and an empty answer; the size drops by the number of derived keys that were present |
| Ops.PatriciaOps.Enqueue | src/main/java/com/jeraff/patricia/server/ops/PatriciaOps.java:181-199 | the new trie is `EnqueueAll` of the old one: the job's loops, with `put` of the winner or of the string at each key |
| IndexSpec.PutKeysEffect | src/main/java/com/jeraff/patricia/server/ops/PatriciaOps.java:91-94 | writing one string's keys adds exactly those keys; they hold the string, and every other key keeps its value |
| IndexSpec.LastDeriving | src/main/java/com/jeraff/patricia/server/ops/PatriciaOps.java:87-94 | the position of the last input string that derives a key, or none when no input string derives it |
| IndexSpec.PutLastWriterWins | src/main/java/com/jeraff/patricia/server/ops/PatriciaOps.java:87-94 | after put, a derived key holds the last input string, in array order, that derives it; any other key keeps its presence and value |
| IndexSpec.PutKeySet | src/main/java/com/jeraff/patricia/server/ops/PatriciaOps.java:91-92 | the keys after put are the old keys plus the derived keys of the input strings; put never removes a key |
| IndexSpec.PutNeverShrinks | src/main/java/com/jeraff/patricia/server/ops/PatriciaOps.java:79-92 | size never decreases under put |
| IndexSpec.PutOneKeys | src/main/java/com/jeraff/patricia/server/ops/PatriciaOps.java:194-197 | putting a one-string array writes that string under each of its own derived keys |
| IndexSpec.RemoveKeysEffect | src/main/java/com/jeraff/patricia/server/ops/PatriciaOps.java:138-141 | removing a string's keys deletes exactly those keys; the answer for the string is what stood under its last key (null if absent); other answers are kept |
| IndexSpec.RemoveKeysTrie | src/main/java/com/jeraff/patricia/server/ops/PatriciaOps.java:139-141 | removing a list of keys leaves the trie minus those keys |
| IndexSpec.RemoveKeysAnswer | src/main/java/com/jeraff/patricia/server/ops/PatriciaOps.java:138-141 | the answer for the string is what the removal of its last key returned once the earlier keys were gone; every other answer is kept |
| IndexSpec.RemoveStringReports | src/main/java/com/jeraff/patricia/server/ops/PatriciaOps.java:137-142 | removing one string's keys only drops entries of the trie, keeps every recorded answer true to the trie before the call, and adds an answer for the string exactly when it has keys |
| IndexSpec.RemoveAllTrie | src/main/java/com/jeraff/patricia/server/ops/PatriciaOps.java:137-142 | after remove, no derived key of an input string is present, and every other key keeps its value |
| IndexSpec.RemoveShrinksBy | src/main/java/com/jeraff/patricia/server/ops/PatriciaOps.java:137-142 | size drops by the number of derived keys that were present beforehand |
| IndexSpec.RemoveAllReports | src/main/java/com/jeraff/patricia/server/ops/PatriciaOps.java:137-142 | every answer is about a string with keys and reports a value that stood under that string's last key before the call; the answer gains an entry for each input string with keys |
| IndexSpec.RemoveAnswers | src/main/java/com/jeraff/patricia/server/ops/PatriciaOps.java:133-145 | the answer of remove has an entry for exactly the input strings; a non-null entry is the value that stood, before the call, under the string's last derived key |
| IndexSpec.RemoveOne | src/main/java/com/jeraff/patricia/server/ops/PatriciaOps.java:137-141 | removing one string reports exactly what stood under its last derived key, null when nothing did |
| IndexSpec.EnqueueKeyKeeps | src/main/java/com/jeraff/patricia/server/ops/PatriciaOps.java:188-198 | one step of the job keeps every key, and a key derived from the string is present afterwards |
| IndexSpec.EnqueueKeysKeeps | src/main/java/com/jeraff/patricia/server/ops/PatriciaOps.java:186-199 | after processing a string, all its derived keys are present and no key was lost |
| IndexSpec.EnqueueKeepsAndCovers | src/main/java/com/jeraff/patricia/server/ops/PatriciaOps.java:181-199 | a job never deletes a key, and afterwards every derived key of every input string is present |
| IndexSpec.EnqueueKeyResolves | src/main/java/com/jeraff/patricia/server/ops/PatriciaOps.java:190-198 | when the preference returns one of its arguments: after a step, an absent key holds the string, and a present key holds the preferred of its occupant and the string |
| IndexSpec.EnqueueSettledIsNoOp | src/main/java/com/jeraff/patricia/server/ops/PatriciaOps.java:190-195 | a string whose keys are all held by occupants preferred over it changes nothing |
| Ops.SubMapValues | src/main/java/com/jeraff/patricia/server/ops/PatriciaOps.java:112 | the values of the prefix sub-map are exactly the values stored under keys that start with the search key |
| Ops.CapThenRank | src/main/java/com/jeraff/patricia/server/ops/PatriciaOps.java:118-125 | capping the natural-order list at ten and reordering it gives a duplicate-free list of min(10, n) values, the same values as the capped list, each preceding in String order every value left out |
| Collections.TreeSetOf | src/main/java/com/jeraff/patricia/server/ops/PatriciaOps.java:118 | the list holds each value once, in strictly increasing String order |
| Collections.Sort | src/main/java/com/jeraff/patricia/server/ops/PatriciaOps.java:125 | a permutation of the input, ordered by the comparator; a list that was strictly increasing keeps String order among ties (a stable sort) |
| Collections.SortStep | src/main/java/com/jeraff/patricia/server/ops/PatriciaOps.java:125 | one insertion of the sort keeps the list a permutation of the elements seen so far, sorted, and with ties in natural order |
| Collections.TreeSetAdd | src/main/java/com/jeraff/patricia/server/ops/PatriciaOps.java:118 | adding to an increasing list keeps it increasing, and adds exactly the new value |
| JavaString.CompareTo | src/main/java/com/jeraff/patricia/server/ops/PatriciaOps.java:118 | compareTo of two strings one of which is a prefix of the other is the difference of their lengths |
| JavaString.CompareToFirstDifference | src/main/java/com/jeraff/patricia/server/ops/PatriciaOps.java:118 | where two strings first differ, compareTo is the difference of the two characters there |
| JavaString.CompareToZero | src/main/java/com/jeraff/patricia/server/ops/PatriciaOps.java:118 | compareTo is zero exactly for equal strings, so the TreeSet keeps one copy of each value |
| JavaString.LessTransitive | src/main/java/com/jeraff/patricia/server/ops/PatriciaOps.java:118 | String order is transitive |
| JavaString.Split | src/main/java/com/jeraff/patricia/conf/Config.java:110 | every piece of the split is free of '.' |
| JavaString.SplitJoin | src/main/java/com/jeraff/patricia/conf/Config.java:110 | splitting dot-free pieces joined with '.' gives back the pieces when the last is non-empty |
| Conf.Config.SetupCores | src/main/java/com/jeraff/patricia/conf/Config.java:55-69 | fails on a missing core list; otherwise fails exactly when two cores share a path, naming the first repeated path; on success the index-handler flag becomes true when no core path is "/" and is otherwise unchanged; a failure leaves it unchanged |
| Conf.SetPathStores | src/main/java/com/jeraff/patricia/conf/Config.java:115-127 | after a successful walk, the value sits at the end of the segment path |
| Conf.SetPathCreates | src/main/java/com/jeraff/patricia/conf/Config.java:119-124 | after a successful walk, every level above the last segment is a map |
| Conf.SetPathFrame | src/main/java/com/jeraff/patricia/conf/Config.java:115-129 | every path that neither leads to nor extends the segment path is unchanged, including siblings inside reused intermediate maps |
| Conf.SetPathFails | src/main/java/com/jeraff/patricia/conf/Config.java:119-124 | the walk fails exactly when an existing intermediate value is not a map |
| Conf.SplitKeepsHead | src/main/java/com/jeraff/patricia/conf/Config.java:110-113 | a `patricia.`-prefixed name splits with "patricia" first, so the first piece can always be dropped |
| Conf.Segments | src/main/java/com/jeraff/patricia/conf/Config.java:110-113 | the segments are dot-free, and the last one is not empty |
| Conf.SegmentsOfJoin | src/main/java/com/jeraff/patricia/conf/Config.java:110-113 | the name "patricia", s1, …, sn joined with '.' starts with `patricia.` and has the segments s1 … sn |
| Conf.JoinUnderPrefix | src/main/java/com/jeraff/patricia/conf/Config.java:21 | that name is `patricia.` followed by the segments joined with '.' |
| Conf.SplitJoinAfterHead | src/main/java/com/jeraff/patricia/conf/Config.java:110 | splitting a dot-free head joined to dot-free segments, the last non-empty, gives back the head and the segments |
| Conf.IgnoredProperty | src/main/java/com/jeraff/patricia/conf/Config.java:99-107 | a property whose key is not a String, or lacks the prefix, leaves the map unchanged |
| Conf.IgnoredProperties | src/main/java/com/jeraff/patricia/conf/Config.java:98-107 | a loop over only such properties leaves the map unchanged |
| Conf.PropertyLandsAtPath | src/main/java/com/jeraff/patricia/conf/Config.java:110-127 | `patricia.s1.….sn=v` puts v at `conf[s1]…[sn]` unless an existing intermediate value is not a map |
| Conf.HandleSystemProperties | src/main/java/com/jeraff/patricia/conf/Config.java:97-132 | the loop over the properties gives `ApplyAll`, the properties applied one by one in iteration order; the first failure ends it |
| StringUtils.Strip | src/main/java/com/jeraff/patricia/handler/Core.java:30 | the result is a slice of the input, surrounded only by '/', that neither starts nor ends with '/' |
| StringUtils.StripOfPadded | src/main/java/com/jeraff/patricia/handler/Core.java:30 | a core padded only with '/' on both sides strips to exactly that core |
| StringUtils.StripOfUnpadded | src/main/java/com/jeraff/patricia/handler/Core.java:45 | a string that neither starts nor ends with the strip character strips to itself |
| StringUtils.StripIdempotent | src/main/java/com/jeraff/patricia/handler/Core.java:43 | stripping twice is the same as stripping once |
| StringUtils.IsWhitespace | src/main/java/com/jeraff/patricia/handler/Core.java:44 | space, tab, newline and carriage return are whitespace; the non-breaking spaces U+00A0, U+2007 and U+202F are not; no whitespace is '/' or above U+3000 |
| StringUtils.BlankStrings | src/main/java/com/jeraff/patricia/handler/Core.java:44 | the empty string is blank; a blank string has no '/'; a concatenation is blank exactly when both parts are |
| Handler.NormalizeContextPath | src/main/java/com/jeraff/patricia/handler/Core.java:29-32 | starts with '/'; is either "/" or neither starts with "//" nor ends with '/'; after the '/' comes the argument stripped of '/'; a null path gives "/null" |
| Handler.NewCore | src/main/java/com/jeraff/patricia/handler/Core.java:16-21 | the analyzer is PartialMatchAnalyzer's canonical name, and the context path has the normalised shape |
| Handler.NormalizeOfPadded | src/main/java/com/jeraff/patricia/handler/Core.java:29-32 | a path of '/' padding around a core normalises to "/" followed by that core |
| Handler.NormalizeIdempotent | src/main/java/com/jeraff/patricia/handler/Core.java:29-32 | a core built from a core's context path has the same context path |
| Handler.MakeUrl | src/main/java/com/jeraff/patricia/handler/Core.java:42-49 | every URL has at least two characters and starts and ends with '/' |
| Handler.MakeUrlOfCore | src/main/java/com/jeraff/patricia/handler/Core.java:42-49 | for a core built from p: "/" + strip(sub) + "/" when strip(p) is blank; otherwise "/" + strip(p) + "/" + strip(sub) + "/" |
| Handler.ContextOfCore | src/main/java/com/jeraff/patricia/handler/Core.java:43 | the stripped context of a core built from p is p stripped of '/' |
| Handler.MakeUrlOfWord | src/main/java/com/jeraff/patricia/handler/Core.java:42-49 | a sub-path with no '/' at either end appears unchanged in the URL, under the root or under the stripped context |
| Handler.MakeUrlEndsWithSubPath | src/main/java/com/jeraff/patricia/handler/Core.java:42-49 | such a sub-path is the URL's last segment, between two '/' |
| Handler.GetAddUrl | src/main/java/com/jeraff/patricia/handler/Core.java:51-53 | "/add/" under a blank context; otherwise "/" + context + "/add/" |
| Handler.GetApiUrl | src/main/java/com/jeraff/patricia/handler/Core.java:55-57 | "/api/" under a blank context; otherwise "/" + context + "/api/" |
| Handler.GetStatusUrl | src/main/java/com/jeraff/patricia/handler/Core.java:59-61 | "/status/" under a blank context; otherwise "/" + context + "/status/" |
| Handler.RootAddUrl | src/main/java/com/jeraff/patricia/handler/Core.java:51-53 | a core built from "/", "" or any run of '/' has context "/" and add URL "/add/" |

## Left out

- `persistString` and `createDBConnection` are left out. They do JDBC I/O on a fire-and-forget pool, so the `persist` flag of `put` has no effect in the model.
- The thread pools and any interleaving of concurrent enqueue jobs are left out. One job's body is modelled as plain sequential code, and the `put` calls it makes are sequential calls. Its log line is left out.
- Logging is left out everywhere.
- The limewire `PatriciaTrie` becomes a map from key to string. Its key order is taken to be String's natural order. Its prefix view is the set of keys that have the search key as a prefix.
- `PartialMatchAnalyzer`, `getHash` and `DistanceComparator` are not part of this model. `getIndexEntry` becomes a list of derived keys, standing for the iteration order of the entry set.
- StringUtils.IsWhitespace: follows `Character.isWhitespace` of Java 9 and later. Java 6 to 8 also count U+180E (Mongolian vowel separator) as whitespace, and the model does not.
- Java `char` is a UTF-16 unit, but a Dafny `char` is a Unicode scalar value. `compareTo` and `Character.isWhitespace` are modelled on Dafny chars, so surrogate pairs are not modelled.
- Ops.PatriciaOps.FirstKey: `firstKey` on an empty trie throws. The model returns none instead.
- Ops.PatriciaOps.LastKey: `lastKey` on an empty trie throws. The model returns none instead.
- `Config.instance` is left out: it reads files and does a Jackson round trip. So are `getConfigFileContent` (file I/O), `configConnector` (bean reflection) and the getters and setters of `Config`.
- The conf-package `Core` class is not part of this model. A configured core is reduced to its path.
- Conf.HandleSystemProperties: the nested configuration map is modelled as a value rather than as shared mutable maps.
  - Sharing between the maps is therefore not modelled. The configuration maps come fresh from the JSON reader, so none are shared.
  - The walk down one property's path is a recursive function on that value (`SetPath`) rather than a loop over mutable maps.
  - On an exception the model returns the error, not the partly updated map. The exception escapes `Config.instance`, and the map is discarded there.
- `Properties` is a Hashtable, so its iteration order is unspecified. The model takes the entries as a sequence in some fixed order.
- The two-argument handler `Core` constructor and `analyzerClass` are left out: they use `Class.forName` reflection.
- `ApiHandler`, `PatriciaServer` and `ApiMethodResult` are not part of this model. They cover HTTP dispatch, server wiring and a response bean.
