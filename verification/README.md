# A verified model of four algorithms of vcpkg-test

The repository is a collection of small programs. Four of its files hold self-contained algorithms; this project
models them in Dafny and proves what they compute. `dafny verify dfyconfig.toml` checks everything.

| files | subject |
|---|---|
| `RecencyList.dfy`, `Recency.dfy`, `WindowSearch.dfy`, `MinCharWindow.dfy` | the minimum covering window, found with an intrusive doubly linked list (`src/min_char_window.cpp`) |
| `VisitTransform.dfy` | the n-ary continuation-passing visit in its two forms (`src/visit_transform.h`) |
| `ReplaceAll.dfy` | the in-place replacement with a wrapping cursor (`src/gz/Generator.cc`) |
| `Variate.dfy` | the compile-time registry of types and the erased round trip (`src/variate.cpp`) |
| `Machine.dfy`, `Sequences.dfy` | machine integers, and duplicate-free sequences |

## Main results

**Minimum covering window.** `MinWin` is the loop over the linked list. It is proved to return `Answer`, a function of
the input and the pattern alone, and `CorrectExactlyWhenReliable` says when that answer is the leftmost shortest
substring holding every pattern character (and empty when there is none). It is not always: the list does not notice
that it holds a node while the node is alone, because both links are null (`src/min_char_window.cpp:104`), so a
pattern character met twice before any other is counted twice. With *d* distinct pattern characters in the input, *n*
the length of the pattern, and *e* = 1 if the first two pattern characters met are equal and 0 otherwise, the answer
is right if and only if

* all pattern characters occur in the input, and *n* ≤ 1 or *d* + *e* = *n*; or
* some pattern character is missing, and *d* + *e* < *n*.

This holds for every input and every pattern, also for patterns with repeated characters (where "covers" means that
each character occurs). For distinct characters it comes down to the condition in `DistinctPattern`. `ForgottenNode` is
an input that fails. Whether or not the answer is right, `MeasuredEverywhere` and `MeasuredSomewhere` say exactly
which window it is. Integers of type `size_t` are a subset type, so every stored subtraction of the loop is proved not
to wrap, and no stored position equals `MARKER`.

**Replacement.** `Safe` characterises the pairs (old, new) for which the loop agrees with the plain left-to-right
replacement on every text, in both directions. The two families that fail are a replacement shorter by two or more
characters, where an occurrence at the start of the text wraps the cursor and ends the loop, and a replacement whose
end overlaps the beginning of the old string, where the loop replaces text that it has just produced.

**Visit.** The rotating recursion and the chain of visitors denote the same nested bind for every transformer whose
result depends only on what its continuation returns. The number of continuation calls is free: once, never, or many
times, where the function is called on the Cartesian product in lexicographic order.

**Variants.** Whatever the order in which the return sites of any number of tags are instantiated, every erased value
comes back in the variant of all types of its tag, with the index, type and value that its own site stored.

## Modelling decisions

* The 256 elements of `chars` live in the array by value and are never rebound, so the table is a sequence of 256
  distinct `Node` objects that are updated in place.
* The body of the loop of `min_win` is split over `Round`, `Advance`, `Relink`, `Touch` and `Measure`, and the end of
  `pop` is `Unlink`; the statements are the source's, in its order. The list carries its nodes as a ghost sequence.
* A `std::string` is no longer than 2^63 - 1 characters; an edit that would exceed this throws, and `ReplaceAll` says
  when that happens. The cursor is the machine word modulo 2^64; `Run` is the same loop over an integer cursor, with
  a negative integer standing for a wrapped word (`FromCursor`). `SimpleExactlyWhenSafe` speaks of texts of any length;
  its counterexamples are at most twice as long as the old string.
* The C++ templates of the visit do not distinguish arguments from transformed values, so both have one type.
* Flags are a map from index and tag to the list of alternatives; instantiating a template is a function on it.

## Model

| member | source | states |
|---|---|---|
| Machine.WordSizes | src/min_char_window.cpp:5-5 | `MARKER` is the greatest 64-bit word, and a string may have half as many characters |
| RecencyList.Node.Mark | src/min_char_window.cpp:86-89 | a pattern character's entry starts at position 0 without links |
| RecencyList.List.EmplaceBack | src/min_char_window.cpp:23-37 | appends a node and keeps the links mirrored; a node that is the whole list stays alone and becomes its own `next` |
| RecencyList.List.PopFront | src/min_char_window.cpp:39-48 | takes the head off a list of two or more and leaves a list of one untouched |
| RecencyList.List.PopBack | src/min_char_window.cpp:50-59 | takes the tail off a list of two or more and leaves a list of one as it is |
| RecencyList.List.Pop | src/min_char_window.cpp:61-74 | removes a member at the head, the tail or in the middle, keeping the others linked in their order |
| RecencyList.List.Unlink | src/min_char_window.cpp:71-73 | a node with neighbours on both sides leaves a list that is still linked both ways |
| RecencyList.List.Front | src/min_char_window.cpp:76-76 | the first node, null only for the empty list |
| RecencyList.List.MoveToBack | src/min_char_window.cpp:109-113 | popping and appending moves a node to the back, with null ends kept |
| Sequences.MovedAt | src/min_char_window.cpp:109-113 | where every element sits after one has gone to the back: the others keep their order |
| RecencyList.PrevWalk | src/min_char_window.cpp:23-74 | following `prev` from any node visits the rest of the list one by one and ends in null |
| RecencyList.NextWalk | src/min_char_window.cpp:23-74 | following `next` leads back the way that `prev` came |
| Recency.LeastRecentHoldsSeen | src/min_char_window.cpp:103-113 | the recency order holds each pattern character seen exactly once |
| Recency.LeastRecentOrdered | src/min_char_window.cpp:103-113 | it is strictly increasing by last occurrence |
| Recency.FrontStartIsTight | src/min_char_window.cpp:116-117 | the front's position is the latest start from which the window ending here holds all characters seen, in both directions |
| WindowSearch.CounterStep | src/min_char_window.cpp:99-108 | the counter grows exactly on a new pattern character, or once when the only one met so far is repeated |
| WindowSearch.CounterMonotone | src/min_char_window.cpp:103-113 | counter and characters seen only grow, and the miscount is settled once two pattern characters are met |
| WindowSearch.ExtraMeaning | src/min_char_window.cpp:104-108 | the miscount is one exactly when the pattern characters at the first two positions that hold any are equal, and zero otherwise |
| WindowSearch.MeasuredEverywhere | src/min_char_window.cpp:114-123 | at every position with a pattern character at which the number of characters seen plus the miscount is the pattern's length, the window found is no longer than the one ending there, and no later if equally long |
| WindowSearch.MeasuredSomewhere | src/min_char_window.cpp:114-129 | a nonempty answer is the window ending at such a position and beginning at the front |
| WindowSearch.FiresSomewhere | src/min_char_window.cpp:103-114 | a window is recorded somewhere if and only if the final counter reaches the pattern's length |
| WindowSearch.FiresWhenAllSeen | src/min_char_window.cpp:114-114 | with two or more pattern characters and the right final count, the test holds exactly when all have been seen |
| WindowSearch.FiresTooEarly | src/min_char_window.cpp:114-114 | with a miscount, the test never holds when all have been seen |
| WindowSearch.ScanKeepsShortest | src/min_char_window.cpp:114-123 | the window kept is the shortest of all recorded ones, and the first of these |
| WindowSearch.LastPatternCharacter | src/min_char_window.cpp:114-123 | every covering substring contains the window measured at its last pattern character |
| WindowSearch.ExactFiringIsCorrect | src/min_char_window.cpp:79-130 | recording exactly the complete windows suffices for the leftmost shortest covering substring |
| WindowSearch.CorrectExactlyWhenReliable | src/min_char_window.cpp:79-130 | for every input and pattern: the answer is the leftmost shortest covering substring, or empty if there is none, if and only if the counter condition holds |
| WindowSearch.DistinctPattern | src/min_char_window.cpp:79-130 | for distinct pattern characters: right if and only if there is only one, or the first two met are not equal, or at least two are missing |
| WindowSearch.SpecIsUnique | src/min_char_window.cpp:79-130 | at most one string meets the specification |
| WindowSearch.AnswerEnds | src/min_char_window.cpp:129-129 | any nonempty answer is a substring that begins and ends with a pattern character |
| WindowSearch.ForgottenNode | src/min_char_window.cpp:104-108 | on `AAB` with pattern `AB` the answer is wrong although the input covers the pattern |
| MinCharWindow.Isolated | src/min_char_window.cpp:104-104 | the test for a node outside the list holds exactly for a character not seen yet, and for a lone one not yet repeated |
| MinCharWindow.Touch | src/min_char_window.cpp:103-113 | the node ends at the back of the list whichever branch is taken, and the counter grows exactly when the node looked detached |
| MinCharWindow.Relink | src/min_char_window.cpp:103-113 | list, links and counter go from describing a prefix of the input to describing the next one |
| MinCharWindow.Advance | src/min_char_window.cpp:103-113 | the same together with all stored positions |
| MinCharWindow.ListIsRecencyOrder | src/min_char_window.cpp:95-124 | after every round the list holds each character seen once, at its last occurrence, in increasing order along `prev` from the head; the counter is its length plus the miscount; without a miscount both ends are null |
| MinCharWindow.HeadMarksFront | src/min_char_window.cpp:116-117 | the front exists whenever it is used, and its position starts the shortest window ending here |
| MinCharWindow.Bounds | src/min_char_window.cpp:99-107 | `MARKER` tells exactly the characters outside the pattern apart, and the counter stays below the input's length |
| MinCharWindow.Skip | src/min_char_window.cpp:99-102 | a character outside the pattern changes nothing |
| MinCharWindow.Measure | src/min_char_window.cpp:114-123 | whenever the counter is the pattern's length and the distance from the front is smaller, it becomes `min_distance` and `cur` becomes `pos`, and otherwise both stay; they keep encoding the best window, and the distance does not wrap |
| MinCharWindow.MakeTable | src/min_char_window.cpp:81-89 | 256 distinct unlinked entries, exactly those of the pattern marked, also for repeated characters |
| MinCharWindow.Round | src/min_char_window.cpp:95-124 | the loop body keeps the whole invariant, from one prefix of the input to the next |
| MinCharWindow.Search | src/min_char_window.cpp:90-124 | the loop ends with the best window of the whole input |
| MinCharWindow.Decoded | src/min_char_window.cpp:125-129 | the final subtraction does not wrap and the substring lies inside the input |
| MinCharWindow.MinWin | src/min_char_window.cpp:79-130 | returns the leftmost shortest covering substring, or nothing if there is none, if and only if the counter condition holds |
| ReplaceAll.FirstFrom | src/gz/Generator.cc:51-51 | the least position at or after the start at which the pattern occurs |
| ReplaceAll.StdString.Find | src/gz/Generator.cc:51-51 | that position as a machine word, `npos` when there is none |
| ReplaceAll.StdString.Replace | src/gz/Generator.cc:53-53 | edits in place, or throws exactly when the result would have 2^63 characters or more |
| ReplaceAll.PassesCount | src/gz/Generator.cc:51-55 | the final length is the initial one plus passes times the difference, with at most one pass for each place at which an occurrence can still begin |
| ReplaceAll.AfterOneMore | src/gz/Generator.cc:51-55 | every pass replaces the next occurrence found from the cursor, and leaves a state from which the loop ends in the same text with one pass fewer to go |
| ReplaceAll.FromCursor | src/gz/Generator.cc:51-54 | nothing is found from a wrapped cursor |
| ReplaceAll.SimpleFirst | src/gz/Generator.cc:48-56 | the plain replacement keeps the text before the first occurrence, replaces it, and goes on behind it |
| ReplaceAll.RunFinishesRest | src/gz/Generator.cc:48-56 | from a cursor inside the finished text the loop does to the rest what the plain replacement does |
| ReplaceAll.RunInserts | src/gz/Generator.cc:48-56 | with an empty old string, the new one is inserted before every character and at the end |
| ReplaceAll.SafeIsSimple | src/gz/Generator.cc:48-56 | for a safe pair the loop equals the plain left-to-right replacement on every text |
| ReplaceAll.SingleCharacter | src/gz/Generator.cc:48-56 | so it does for one-character old strings and any new one |
| ReplaceAll.WrapMissesSecond | src/gz/Generator.cc:54-54 | if the new string is shorter by two or more, an occurrence at the start ends the loop |
| ReplaceAll.OverlapReplacesTwice | src/gz/Generator.cc:54-54 | if a proper prefix of the old string ends the new one, inserted text is replaced again |
| ReplaceAll.SimpleExactlyWhenSafe | src/gz/Generator.cc:48-56 | the pair is safe if and only if the loop equals the plain replacement on every text |
| ReplaceAll.ReplaceAll | src/gz/Generator.cc:48-56 | terminates for all strings below 2^63 characters; throws if and only if the full result has 2^63 or more, and then keeps the text of all passes before the one that does not fit; otherwise the object holds the full result |
| VisitTransform.BindStep | src/visit_transform.h:64-75 | the nested bind transforms its first argument and binds the others inside the continuation |
| VisitTransform.RotateIsBind | src/visit_transform.h:52-75 | with the pending arguments in front and the transformed ones behind, the recursion is the nested bind |
| VisitTransform.ChainIsBind | src/visit_transform.h:87-121 | the piped visitors, called with some values, are the nested bind of their own arguments after these |
| VisitTransform.BothVisitsAgree | src/visit_transform.h:78-121 | both forms give the same result for every function, argument list and transformer that respects equal continuations |
| VisitTransform.VisitOnce | src/visit_transform.h:64-121 | a transformer that calls its continuation once makes both forms call the function on the mapped arguments, in order |
| VisitTransform.VisitGuarded | src/visit_transform.h:64-121 | a transformer that may give up: the first failing argument decides the result of both forms |
| VisitTransform.VisitExplore | src/visit_transform.h:64-121 | a transformer that tries every choice: both forms call the function on the rows of the Cartesian product, in order |
| VisitTransform.ProductCount | src/visit_transform.h:64-121 | the number of these calls is the product of the numbers of choices |
| VisitTransform.ProductOrder | src/visit_transform.h:64-121 | the rows are in lexicographic order |
| VisitTransform.ProductMember | src/visit_transform.h:64-121 | the rows are exactly the ways to take one choice of every argument |
| Variate.DecayLaws | src/variate.cpp:209-214 | decaying drops a reference and a top-level const, turns an array into a pointer to its elements, and leaves every other type |
| Variate.DecayedIsValue | src/variate.cpp:209-214 | a stored type is never a reference, an array or const, and decays to itself |
| Variate.NextFlagIsFree | src/variate.cpp:135-145 | an injection takes the first free index and appends to the whole list |
| Variate.RegistryAfterSites | src/variate.cpp:115-145 | after any run of injections under any tags, each tag's flags are contiguous from 0 and flag k lists its first k + 1 types |
| Variate.OneMoreSite | src/variate.cpp:135-145 | one more site defines exactly one more flag, the next of its own tag; all flags of all tags stay as they were |
| Variate.FlagCount | src/variate.cpp:115-145 | a tag has exactly as many flags as sites, and flag k lists k + 1 types |
| Variate.PositionOwner | src/variate.cpp:115-145 | every position of such a list belongs to exactly one site of the tag and has its decayed type |
| Variate.IndexCounts | src/variate.cpp:135-145 | a site's index is the number of earlier sites of its tag |
| Variate.LastFlagIsLast | src/variate.cpp:195-204 | the search for the last flag ends at the last one, or never if there is none |
| Variate.TypesGrow | src/variate.cpp:120-127 | the list of an earlier moment is a prefix of every later one |
| Variate.SiteHasItsType | src/variate.cpp:206-217 | a site's index counts the earlier sites of its tag, and the final list has its decayed type there |
| Variate.MaxElementUnchecked | src/variate.cpp:67-82 | the first position of a maximum, or the end of an empty range |
| Variate.MaxValue | src/variate.cpp:84-89 | the greatest element of a nonempty list |
| Variate.ConstraintMeansFits | src/variate.cpp:94-95 | the constraint on the greatest size holds if and only if every alternative fits the buffer |
| Variate.IndexFound | src/variate.cpp:171-187 | an index in range whose type is the stored one is found, without reaching the end of the search |
| Variate.SearchOutcome | src/variate.cpp:171-187 | the search ends unreachable exactly for an index out of range, and reads a wrong type exactly when the stored one is not listed there |
| Variate.NoSiteIsIllFormed | src/variate.cpp:195-204 | without a site of the tag the program is rejected |
| Variate.VariantOfRegistry | src/variate.cpp:231-239 | from any well-formed registry, an erased value whose type is listed at its index becomes that variant, or is rejected for size |
| Variate.RoundTrip | src/variate.cpp:189-239 | every site's value comes back under its own index, type and value if and only if all alternatives fit; otherwise the program is rejected |
| Variate.VariantAlternatives | src/variate.cpp:189-239 | the variant has one alternative for every site of the tag and no other, each with its decayed type, and its index is the number of earlier sites |
| Variate.Code3Variant | src/variate.cpp:270-282 | the alternatives, index and value for `ok` up to 5, from 6 to 10, and above |
| Variate.CodeVariants | src/variate.cpp:244-258 | `code` gives a variant of an integer and a string, `code1` a variant of an integer alone, whatever the other does |
| Variate.Code3IsComp3 | src/variate.cpp:270-295 | `make_variant(code3, ok)` equals `comp3(ok)` in alternatives, index and value for every integer |
| Variate.Code2Variant | src/variate.cpp:260-268 | `code2` gives a variant of a float and a pointer to constant characters, with the asserted index and values |

## Left out

- MinWin: characters above 127, which index outside the table when `char` is signed.
- MinWin: how often a repeated pattern character must occur; covering means that each character occurs at least once.
- `operator<` of `A`: nothing calls it.
- ReplaceAll: calls in which the text is the same object as the old or the new string; these are values here.
- SimpleExactlyWhenSafe: does not take the length limit of strings into account, which `ReplaceAll` states.
- BothVisitsAgree: transformers that inspect the type or identity of their continuation, value categories and moves; arguments are copied.
- RoundTrip: two sites of one tag with the same decayed type count as two injections here; whether a compiler repeats the injection is not part of this model.
- Erased: raw bytes, alignment and object lifetimes; the buffer is a type and a value.
- Decay: function types and `volatile`.
- `Generator::Generate`: fixed text printed through the protobuf printer.
- The programs under `src/asio-grpc`, `src/arcus`, `src/brpc`, `src/opentelemetry`, `src/tbb`, `src/upb` and the other example directories: thin calls into libraries.
- `src/static_views.hpp` and `src/client_rpc_intellisense.cpp`: they would add only easy members.
