# sipka.syntax.parser, modelled in Dafny

This project models the core of sipka.syntax.parser, a Java library that
parses text against a language made of rules and re-parses a document
incrementally after edits.

A language is a tree of rules:

- consume rules match a regular expression at the cursor; a matches rule also
  appends the matched text to the current value, a skip rule does not;
- value rules collect what their children append into a named value;
- invoke rules call a declared rule with bound arguments;
- container rules run child rules in order (in-order), as alternatives
  (first-order) or in any order (any-order).

Each child of a container is used under an occurrence policy such as `?`,
`*`, `+`, `N`, `N-M`, `N+`, `N-` or an alternation of these, and an
occurrence counter checks the number of matches against it. Parsing produces a
statement tree (consumed leaves, collections, named values) together with a
parsing-information tree. That second tree records, for every node, the rule
that produced it and its region of interest: the part of the document the rule
inspected.

Repair takes a list of reparation regions (edits). It splices them into a copy
of the text and shifts every position and region of interest past each
deletion and insertion. It marks the nodes whose region of interest an edit
touched, and then re-runs the root rule. The container rules re-use unmodified
previous children found at the cursor and re-parse the rest.

The model also covers:

- ModifiableStatement, a mutable named tree built from a statement, with its
  edits, queries and preorder walker;
- the string-literal escaping and package splitting of the Java source
  generator.

Java values become Dafny values. The objects the source updates in place are
classes:

- DocumentRegion;
- ValueConsumer;
- OccurrenceCounter;
- DocumentData;
- the statement builder;
- the ModifiableStatement forest and its walker.

Java exceptions become the `Err`/`Fail` cases of `Result` and `Outcome`
(wrappers.dfy), named after the exception classes. Several pieces of behaviour
are functions passed in as parameters ("oracles"), and the contracts state
what the code around them guarantees whatever these return:

- what a rule's own parse does;
- the regular-expression engine;
- a child rule's parse, as seen from a container;
- an invoked rule;
- the root rule re-run by repair.

## Model

| member | source | states |
|---|---|---|
| Occurrences.Add | src/sipka/syntax/parser/model/occurrence/MultipleOccurrence.java:43-45 | the member list grows by exactly the new policy at its end; the earlier members are kept in order |
| Occurrences.MultipleIsValid | src/sipka/syntax/parser/model/occurrence/MultipleOccurrence.java:26-32 | the early-exit loop answers true exactly when some member policy accepts the count |
| Occurrences.MultipleCanAcceptMore | src/sipka/syntax/parser/model/occurrence/MultipleOccurrence.java:35-41 | the early-exit loop answers true exactly when some member policy can take one more |
| Occurrences.MultipleSafeAdd | src/sipka/syntax/parser/model/occurrence/MultipleOccurrence.java:53-61 | the loop's running maximum (from 0) equals the safe-add fold over the members |
| Occurrences.MultipleRequiredMore | src/sipka/syntax/parser/model/occurrence/MultipleOccurrence.java:64-75 | the loop's running minimum with the -1 sentinel equals the required-more fold, 0 when no member answers |
| Occurrences.MaxSafeAddIsMaximum | src/sipka/syntax/parser/model/occurrence/MultipleOccurrence.java:53-61 | the safe-add fold is never negative, bounds every member's answer and is attained by one of them unless it is 0 |
| Occurrences.MinRequiredMoreIsMinimum | src/sipka/syntax/parser/model/occurrence/MultipleOccurrence.java:64-75 | with non-negative member answers the fold is below every member's answer, attained by one, and negative only for no members |
| Occurrences.SafeAddIsCapacity | src/sipka/syntax/parser/model/occurrence/RangeOccurrence.java:34-48 | for every policy, k more occurrences can still be accepted one by one exactly when k is below the safe-add count |
| Occurrences.CanBecomeValidMeansReachable | src/sipka/syntax/parser/model/occurrence/RangeOccurrence.java:29-31 | the quantifier-free test CanBecomeValid holds exactly when some count at or above the current one is valid |
| Occurrences.PolicyRequiredMoreSuffices | lib/src/sipka/syntax/parser/model/occurrence/AtLeastOccurrence.java:53-58 | for a policy that can still become valid, adding the required-more count makes the count valid, and the count is never negative |
| Occurrences.PolicyRequiredMoreIsLeast | src/sipka/syntax/parser/model/occurrence/ExactOccurrence.java:48-53 | except for a range, any smaller addition than the required-more count leaves the count invalid |
| Occurrences.RangeRequiredMoreOvershoots | src/sipka/syntax/parser/model/occurrence/RangeOccurrence.java:51-56 | a range below its start asks for end - count: Range(2, 5) at 0 asks for 5 although 2 more would already be valid |
| Occurrences.ValidNeedsNothingMore | src/sipka/syntax/parser/model/occurrence/MultipleOccurrence.java:64-75 | a valid count needs 0 more, for single policies and for multiples whose members can still become valid |
| Occurrences.MultipleRequiredMoreSuffices | src/sipka/syntax/parser/model/occurrence/MultipleOccurrence.java:64-75 | for a multiple whose members can all become valid, adding the required-more count makes the multiple valid |
| Occurrences.MultipleRequiredMoreMayStayInvalid | src/sipka/syntax/parser/model/occurrence/MultipleOccurrence.java:64-75 | "1\|5+" after 3 occurrences asks for 0 more yet stays invalid, although 5 occurrences would be valid |
| Occurrences.AtLeastZeroIsAny | src/sipka/syntax/parser/model/occurrence/AnyOccurrence.java:23-45 | for every reachable count, AtLeast(0) and Any answer all four questions alike |
| Occurrences.CanAcceptMoreAntitone | src/sipka/syntax/parser/model/occurrence/MultipleOccurrence.java:35-41 | once an occurrence can take no more at some count, it can take no more at any larger count |
| OccurrenceText.ParseInt | lib/src/sipka/syntax/parser/model/occurrence/Occurrence.java:57 | Integer.parseInt: a result always fits in 32 bits, and any rejected text is an IllegalArgumentException |
| OccurrenceText.DigitsRoundTrip | lib/src/sipka/syntax/parser/model/occurrence/Occurrence.java:74 | reading the decimal digits written for a natural number gives the number back |
| OccurrenceText.ParseIntOfToString | lib/src/sipka/syntax/parser/model/occurrence/Occurrence.java:85-86 | parseInt reads back every 32-bit integer from its decimal text, sign included |
| OccurrenceText.TokenLength | lib/src/sipka/syntax/parser/model/occurrence/Occurrence.java:101 | the first token is the longest separator-free prefix: no separator inside it, one right after it |
| OccurrenceText.RunLength | lib/src/sipka/syntax/parser/model/occurrence/Occurrence.java:101 | a separator run is the longest prefix made only of separators |
| OccurrenceText.StripTrailingEmpty | lib/src/sipka/syntax/parser/model/occurrence/Occurrence.java:101 | String.split drops only trailing empty strings: the result is a prefix, ends non-empty, and everything dropped is empty |
| OccurrenceText.SplitEachJoins | lib/src/sipka/syntax/parser/model/occurrence/Occurrence.java:47 | splitting at one separator and joining the pieces with it gives the text back |
| OccurrenceText.SplitRunsPiecesClean | lib/src/sipka/syntax/parser/model/occurrence/Occurrence.java:101 | no piece of the split at separator runs contains a separator |
| OccurrenceText.ParseSingle | lib/src/sipka/syntax/parser/model/occurrence/Occurrence.java:26-98 | a token that is not an occurrence is always an IllegalArgumentException (number errors included) |
| OccurrenceText.ParseAll | lib/src/sipka/syntax/parser/model/occurrence/Occurrence.java:104-106 | all tokens parse exactly when each does; the policies are the tokens' policies in order; otherwise some token failed |
| OccurrenceText.Parse | lib/src/sipka/syntax/parser/model/occurrence/Occurrence.java:100-113 | a multiple occurrence is built only from more than one token |
| OccurrenceText.DigitsHaveNoSeparator | lib/src/sipka/syntax/parser/model/occurrence/Occurrence.java:101 | a text of digits is a single token |
| OccurrenceText.IntToStringShape | lib/src/sipka/syntax/parser/model/occurrence/Occurrence.java:101 | an integer's text ends in a digit and holds no separator |
| OccurrenceText.ParseOneToken | lib/src/sipka/syntax/parser/model/occurrence/Occurrence.java:100-113 | a text with no separator parses as the single policy of parseSingle, or fails as it fails |
| OccurrenceText.ParseSeveralTokens | lib/src/sipka/syntax/parser/model/occurrence/Occurrence.java:100-113 | with several tokens, parse succeeds exactly when every token parses, giving a multiple whose members are the token policies in order |
| OccurrenceText.ParseAtMost | lib/src/sipka/syntax/parser/model/occurrence/Occurrence.java:40-61 | "n-" parses to AtMost(n) for every 32-bit n |
| OccurrenceText.ParseAtLeast | lib/src/sipka/syntax/parser/model/occurrence/Occurrence.java:62-72 | "n+" parses to Any for 0 and to AtLeast(n) otherwise |
| OccurrenceText.ParseExact | lib/src/sipka/syntax/parser/model/occurrence/Occurrence.java:73-83 | a bare natural number n parses to Exact(n) |
| OccurrenceText.ParseNegativeBareNumber | lib/src/sipka/syntax/parser/model/occurrence/Occurrence.java:47-53 | a bare negative number splits at its minus sign into an empty bound and is rejected |
| OccurrenceText.ParseRange | lib/src/sipka/syntax/parser/model/occurrence/Occurrence.java:84-88 | "a-b" parses to Range(a, b) for naturals a and b |
| OccurrenceText.AtLeastToStringRoundTrip | lib/src/sipka/syntax/parser/model/occurrence/AtLeastOccurrence.java:40-45 | parsing the text AtLeastOccurrence.toString writes gives back the same occurrence (Any for 0) |
| OccurrenceText.AtMostToStringRoundTrip | lib/src/sipka/syntax/parser/model/occurrence/AtMostOccurrence.java:40-45 | parsing the text AtMostOccurrence.toString writes gives back the same occurrence |
| OccurrenceText.ParseOnlySeparators | lib/src/sipka/syntax/parser/model/occurrence/Occurrence.java:100-113 | a text of separators only splits into no tokens and parse then fails reading split[0] |
| OccurrenceText.ParseEmpty | lib/src/sipka/syntax/parser/model/occurrence/Occurrence.java:100-113 | the empty text is one empty token, which is not a number |
| Counters.OccurrenceCounter.constructor | lib/src/sipka/syntax/parser/model/parse/OccurrenceCounter.java:27-29 | a counter for the occurrence starts at count 0 |
| Counters.OccurrenceCounter.Copy | lib/src/sipka/syntax/parser/model/parse/OccurrenceCounter.java:31-34 | the copy has the same occurrence and count |
| Counters.OccurrenceCounter.AddOccurrence | lib/src/sipka/syntax/parser/model/parse/OccurrenceCounter.java:44-46 | the count grows by one and the occurrence is kept |
| Counters.OccurrenceCounter.RemoveOccurrence | lib/src/sipka/syntax/parser/model/parse/OccurrenceCounter.java:48-53 | IllegalStateException exactly when the count is not positive, leaving it; otherwise the count drops by one and stays non-negative |
| Counters.OccurrenceCounter.AddAllOccurrenceSafely | lib/src/sipka/syntax/parser/model/parse/OccurrenceCounter.java:55-59 | adds the safe-add count; every count passed on the way could accept one more, and for a count within int range the counter then takes no more |
| Counters.OccurrenceCounter.AddAnyMoreRequired | lib/src/sipka/syntax/parser/model/parse/OccurrenceCounter.java:61-65 | adds the required-more count; a single policy that can still become valid, or a multiple whose members all can, is then valid |
| Counters.OccurrenceCounter.Reset | lib/src/sipka/syntax/parser/model/parse/OccurrenceCounter.java:67-70 | the counter switches to the new occurrence at count 0 |
| Counters.OccurrenceCounter.ResetFrom | lib/src/sipka/syntax/parser/model/parse/OccurrenceCounter.java:72-75 | the counter takes the other counter's occurrence and count |
| Counters.SafeAddNonNegative | lib/src/sipka/syntax/parser/model/parse/OccurrenceCounter.java:55-59 | from a count within int range the safe-add count is never negative, for single and multiple occurrences |
| Regions.HullIsLeastEnclosing | src/sipka/syntax/parser/model/parse/document/DocumentRegion.java:65-78 | the span expandTo produces encloses both spans and lies inside every span that encloses both |
| Regions.OverlapMeansCommonOffset | src/sipka/syntax/parser/model/parse/document/DocumentRegion.java:131-133 | getOverlappingLength is positive exactly when the two spans share an offset |
| Regions.IsOverlappingAsWrittenIgnoresPlace | src/sipka/syntax/parser/model/parse/document/DocumentRegion.java:120-125 | as written, isOverlapping holds for any two non-empty spans, wherever they lie |
| Regions.IsOverlappingAsWrittenCounterexample | src/sipka/syntax/parser/model/parse/document/DocumentRegion.java:120-125 | as written, [0,1) "overlaps" [10,1) although the two share no offset |
| Regions.IsOverlappingMeansCommonOffset | src/sipka/syntax/parser/model/parse/document/DocumentRegion.java:120-125 | the corrected isOverlapping holds exactly when the spans share an offset, and is symmetric |
| Regions.DocumentRegion.constructor | src/sipka/syntax/parser/model/parse/document/DocumentRegion.java:29-30 | a new region is the empty span at 0 |
| Regions.DocumentRegion.Copy | src/sipka/syntax/parser/model/parse/document/DocumentRegion.java:36-40 | the copy holds the same span |
| Regions.DocumentRegion.SetOffset | src/sipka/syntax/parser/model/parse/document/DocumentRegion.java:58-63 | a negative offset is an IllegalArgumentException that leaves the region; otherwise only the offset changes |
| Regions.DocumentRegion.SetLength | src/sipka/syntax/parser/model/parse/document/DocumentRegion.java:80-85 | a negative length is an IllegalArgumentException that leaves the region; otherwise only the length changes |
| Regions.DocumentRegion.Set | src/sipka/syntax/parser/model/parse/document/DocumentRegion.java:87-96 | a negative offset or length is an IllegalArgumentException that leaves the region; otherwise the region is the new span |
| Regions.DocumentRegion.ExpandTo | src/sipka/syntax/parser/model/parse/document/DocumentRegion.java:69-78 | the region becomes the least span enclosing its old span and the given one |
| CharSequences.WholeArray | src/sipka/syntax/parser/util/ArrayRangeCharSequence.java:25-27 | the view of a whole array is well formed and shows exactly the array's characters |
| CharSequences.CharAt | src/sipka/syntax/parser/util/ArrayRangeCharSequence.java:69-75 | on a well-formed view, charAt succeeds exactly for indices within the view's length and reads the viewed character; otherwise IndexOutOfBoundsException |
| CharSequences.ToString | src/sipka/syntax/parser/util/ArrayRangeCharSequence.java:85-87 | toString succeeds exactly for a window inside its array and yields the viewed characters |
| CharSequences.SubSequenceAsWrittenAcceptsReversedRange | src/sipka/syntax/parser/util/ArrayRangeCharSequence.java:77-83 | as written, subSequence(3, 1) of "abcde" is accepted and yields a view of length -2 that cannot be turned into a string |
| CharSequences.SubSequence | src/sipka/syntax/parser/util/ArrayRangeCharSequence.java:77-83 | the corrected subSequence succeeds exactly when 0 <= start <= end <= length, and fails with IndexOutOfBoundsException |
| CharSequences.SubSequenceIsSlice | src/sipka/syntax/parser/util/ArrayRangeCharSequence.java:77-83 | a corrected sub-view of a well-formed view is well formed and shows the slice [start, end) |
| CharSequences.SubSequenceAgreesWhenOrdered | src/sipka/syntax/parser/util/ArrayRangeCharSequence.java:77-83 | wherever start <= end the corrected and the as-written subSequence give the same answer |
| CharSequences.SequenceToArray | src/sipka/syntax/parser/util/ArrayRangeCharSequence.java:47-53 | the loop copies the sequence into a new array, character for character |
| CharSequences.OffsetCharAt | src/sipka/syntax/parser/util/OffsetCharSequence.java:35-41 | on a well-formed view, charAt succeeds exactly within the view and reads the subject at index + i |
| CharSequences.OffsetToString | src/sipka/syntax/parser/util/OffsetCharSequence.java:51-53 | toString succeeds exactly for a window inside its subject and yields the viewed characters |
| CharSequences.OffsetSubSequenceAsWrittenAcceptsReversedRange | src/sipka/syntax/parser/util/OffsetCharSequence.java:43-49 | as written, a reversed range is accepted and yields a view of negative length |
| CharSequences.OffsetSubSequence | src/sipka/syntax/parser/util/OffsetCharSequence.java:43-49 | the corrected subSequence succeeds exactly when 0 <= start <= end <= length |
| CharSequences.OffsetSubSequenceComposes | src/sipka/syntax/parser/util/OffsetCharSequence.java:43-49 | a sub-view shows the slice, and a sub-view of a sub-view is the sub-view at the summed offsets |
| CharSequences.DocumentData.Whole | src/sipka/syntax/parser/model/parse/document/DocumentData.java:21-23 | the document over a whole array views all of it |
| CharSequences.DocumentData.constructor | src/sipka/syntax/parser/model/parse/document/DocumentData.java:25-27 | the document views the given window |
| CharSequences.DocumentData.Copy | src/sipka/syntax/parser/model/parse/document/DocumentData.java:29-31 | the copy views the same window |
| CharSequences.DocumentData.RemoveFromStart | src/sipka/syntax/parser/model/parse/document/DocumentData.java:33-40 | removing more than remains is an IllegalArgumentException that leaves the document; otherwise the window starts count later and shows the rest of the text |
| CharSequences.DocumentData.SubDocumentSequence | src/sipka/syntax/parser/model/parse/document/DocumentData.java:42-44 | the sub-document shares the array and is well formed exactly when the region is well formed and ends within the array |
| Values.HighestOneBit | src/sipka/syntax/parser/model/rule/container/value/ValueConsumer.java:87 | Integer.highestOneBit of a positive count is the largest power of two not above it: h <= x < 2h |
| Values.ValueConsumer.constructor | src/sipka/syntax/parser/model/rule/container/value/ValueConsumer.java:23-26 | a new consumer holds no characters in an empty array |
| Values.ValueConsumer.Length | src/sipka/syntax/parser/model/rule/container/value/ValueConsumer.java:72-74 | the length is the number of characters appended so far |
| Values.ValueConsumer.ParsedValue | src/sipka/syntax/parser/model/rule/container/value/ValueConsumer.java:68-70 | the parsed value is a well-formed view of exactly the accumulated characters |
| Values.ValueConsumer.EnsureCount | src/sipka/syntax/parser/model/rule/container/value/ValueConsumer.java:85-90 | afterwards the array has room for length more characters, the contents are kept, and a grown array is fresh and of at least 16 (and more than the needed) characters; an array with room is kept |
| Values.ValueConsumer.Append | src/sipka/syntax/parser/model/rule/container/value/ValueConsumer.java:58-66 | the consumer's value becomes the old value followed by the string; an empty string leaves the array untouched |
| Values.ValueConsumer.AppendRange | src/sipka/syntax/parser/model/rule/container/value/ValueConsumer.java:28-39 | appending a range fails exactly when a non-empty range lies outside its array, leaving the value; otherwise the value is extended by the range's characters |
| Values.ValueConsumer.SetLength | src/sipka/syntax/parser/model/rule/container/value/ValueConsumer.java:76-78 | truncates the value to its first len characters and keeps the array |
| Reparation.NewEdit | lib/src/sipka/syntax/parser/model/statement/repair/ReparationRegion.java:27-37 | the constructor succeeds exactly for a non-negative offset and length, IndexOutOfBoundsException otherwise; missing text is the empty text |
| Reparation.MovedAt | lib/src/sipka/syntax/parser/model/statement/repair/ReparationRegion.java:70 | System.arraycopy within one array: the destination window holds the source window, every other index is unchanged |
| Reparation.WrittenAt | lib/src/sipka/syntax/parser/model/statement/repair/ReparationRegion.java:76 | String.getChars: the window at the offset holds the text, every other index is unchanged |
| Reparation.SpliceAt | lib/src/sipka/syntax/parser/model/statement/repair/ReparationRegion.java:88-90 | the spliced text reads the prefix, then the replacement text, then the rest shifted by the size difference |
| Reparation.ApplyToArray | lib/src/sipka/syntax/parser/model/statement/repair/ReparationRegion.java:60-86 | apply(char[], int) fails exactly when the end offset passes the data length with a size change, or the text does not fit; a failure while moving leaves the array, otherwise the array is the moved-then-written array |
| Reparation.AfterApplyIs | lib/src/sipka/syntax/parser/model/statement/repair/ReparationRegion.java:60-86 | the array after apply is the moved array, with the text written over it unless it is empty or does not fit |
| Reparation.MoveTail | lib/src/sipka/syntax/parser/model/statement/repair/ReparationRegion.java:63-72 | moving the tail fails exactly when it must move and the end offset is past the data length, leaving the array; otherwise the tail is moved by the size difference, or nothing moves |
| Reparation.ArrayCopy | lib/src/sipka/syntax/parser/model/statement/repair/ReparationRegion.java:70 | the loop copies like System.arraycopy (overlapping windows included) |
| Reparation.GetChars | lib/src/sipka/syntax/parser/model/statement/repair/ReparationRegion.java:74-85 | the loop writes the text at the offset and leaves the rest of the array |
| Reparation.ApplyToArraySplices | lib/src/sipka/syntax/parser/model/statement/repair/ReparationRegion.java:60-86 | when the edit lies within the data and the result fits, apply neither fails nor loses characters: the data prefix of the array becomes the spliced text |
| Reparation.SplicedAt | lib/src/sipka/syntax/parser/model/statement/repair/ReparationRegion.java:60-86 | index by index, the moved-then-written array agrees with the spliced data |
| Reparation.Replace | lib/src/sipka/syntax/parser/model/statement/repair/ReparationRegion.java:57 | StringBuilder.replace succeeds exactly when 0 <= start <= length and start <= end; with the end inside the builder it splices the replacement over [start, end) |
| Reparation.ApplyToBuilder | lib/src/sipka/syntax/parser/model/statement/repair/ReparationRegion.java:88-90 | apply(StringBuilder) on the whole document succeeds exactly when the offset is within the text, and splices the edit in when the edited range is within it |
| Reparation.ApplyToText | lib/src/sipka/syntax/parser/model/statement/repair/ReparationRegion.java:92-102 | apply(CharSequence, int) succeeds exactly when the edited range lies within the characters, and yields the splice, whose length changes by the size difference |
| Reparation.ApplyToTextUndo | lib/src/sipka/syntax/parser/model/statement/repair/ReparationRegion.java:92-102 | applying an edit and then the edit that puts back the replaced characters restores the text |
| Statements.DirectChildren | src/sipka/syntax/parser/model/statement/CollectionStatement.java:87-90 | every direct child is structurally smaller than its parent (the tree is well founded) |
| Statements.ValueText | lib/src/sipka/syntax/parser/model/statement/Statement.java:150-152 | a collection's value is the empty string; a leaf's value is its matched raw text |
| Statements.ScopeTo | src/sipka/syntax/parser/model/statement/CollectionStatement.java:92-105 | every statement found carries the scoper's name; the empty scoper finds nothing |
| Statements.ScopeToChildren | src/sipka/syntax/parser/model/statement/CollectionStatement.java:92-105 | the loop over the children from index i finds only statements named by the scoper |
| Statements.Scopes | src/sipka/syntax/parser/model/statement/CollectionStatement.java:126-140 | every scope pair holds a statement's own non-empty name, and the statement is a proper descendant |
| Statements.ScopesOfChildren | src/sipka/syntax/parser/model/statement/CollectionStatement.java:126-140 | the loop over the children from index i yields only such pairs |
| Statements.NamedAppend | src/sipka/syntax/parser/model/statement/CollectionStatement.java:126-140 | filtering the scope list by a name distributes over concatenation |
| Statements.ScopeToFiltersScopes | src/sipka/syntax/parser/model/statement/CollectionStatement.java:92-105 | scopeTo(n) is exactly getScopes filtered to the pairs named n, in order |
| Statements.ChildrenScopeToFilters | src/sipka/syntax/parser/model/statement/CollectionStatement.java:92-105 | the same, for the children from index i on |
| Statements.IsScopesEmptyMeansNoScopes | src/sipka/syntax/parser/model/statement/CollectionStatement.java:142-153 | isScopesEmpty() holds exactly when getScopes is empty |
| Statements.ChildrenScopesEmptyMeansNone | src/sipka/syntax/parser/model/statement/CollectionStatement.java:142-153 | the same, for the children from index i on |
| Statements.IsScopesEmptyForMeansNoScope | src/sipka/syntax/parser/model/statement/CollectionStatement.java:155-169 | for a non-empty scoper, isScopesEmpty(n) holds exactly when scopeTo(n) is empty |
| Statements.ChildrenScopesEmptyForMeansNone | src/sipka/syntax/parser/model/statement/CollectionStatement.java:155-169 | the same, for the children from index i on |
| Statements.IsScopesEmptyForEmptyNameDiffers | src/sipka/syntax/parser/model/statement/CollectionStatement.java:155-169 | for the empty scoper the two disagree: a collection with an unnamed leaf child has an empty scopeTo("") yet isScopesEmpty("") is false |
| Statements.FirstScope | lib/src/sipka/syntax/parser/model/statement/Statement.java:80-85 | firstScope is absent exactly when scopeTo finds nothing, and is otherwise the first statement found |
| Statements.FirstValue | lib/src/sipka/syntax/parser/model/statement/Statement.java:87-90 | firstValue is null without a first scope, and otherwise that scope's value |
| Statements.NewValueStatement | lib/src/sipka/syntax/parser/model/statement/ValueStatement.java:33-38 | a value statement takes its sub-statement's position, raw text and scopes, has the sub-statement as its only child, and carries the given name |
| Statements.WithName | lib/src/sipka/syntax/parser/model/statement/ValueStatement.java:40-44 | withName changes only the name: position, value, sub-statement, raw text and scopes are kept |
| Statements.ConsumedLeafFacts | lib/src/sipka/syntax/parser/model/statement/ConsumedStatement.java:36-84 | a consumed leaf has no children and no scopes, firstScope and firstValue are null, and its value is its raw text |
| Statements.ValueObject | lib/src/sipka/syntax/parser/model/statement/Statement.java:453-476 | the value sequence compared by contentsEquals is absent exactly for a collection |
| Statements.ContentsEqualsReflexive | lib/src/sipka/syntax/parser/model/statement/Statement.java:453-476 | every statement is contents-equal to itself |
| Statements.ContentsEqualsSymmetric | lib/src/sipka/syntax/parser/model/statement/Statement.java:453-476 | contentsEquals is symmetric |
| Statements.ContentsEqualsTransitive | lib/src/sipka/syntax/parser/model/statement/Statement.java:453-476 | contentsEquals is transitive |
| Statements.ContentsEqualMeansEqualText | lib/src/sipka/syntax/parser/model/statement/Statement.java:453-476 | contents-equal statements have equal names and equal value texts, since they share their value objects |
| Statements.SeparateParsesAreNotContentsEqual | lib/src/sipka/syntax/parser/model/statement/Statement.java:459 | two leaves parsed separately over the same text have equal value texts and are still not contents-equal, because each parse makes its own value object, while each is contents-equal to itself |
| Statements.InfoChildren | src/sipka/syntax/parser/model/statement/repair/CollectionParsingInformation.java:48-51 | every child information is smaller than its parent; a plain information has none |
| Statements.NewResult | src/sipka/syntax/parser/model/rule/ParsingResult.java:29-41 | the constructor is an IllegalStateException exactly when a statement lies outside the region of interest; otherwise it holds both parts and succeeds exactly when there is a statement |
| Statements.FailedResult | src/sipka/syntax/parser/model/rule/ParsingResult.java:43-45 | a result without a statement is not succeeded |
| Statements.Builder.constructor | src/sipka/syntax/parser/model/statement/CollectionStatement.java:36 | a new builder holds no results |
| Statements.Builder.Add | src/sipka/syntax/parser/model/statement/CollectionStatement.java:64-66 | the result is appended to the children |
| Statements.Builder.Clear | src/sipka/syntax/parser/model/statement/CollectionStatement.java:68-70 | the builder holds no results afterwards |
| Statements.Builder.Size | src/sipka/syntax/parser/model/statement/CollectionStatement.java:72-74 | the number of results added |
| Statements.Builder.Statements | src/sipka/syntax/parser/model/statement/CollectionStatement.java:48-54 | the statements of the children, one per child, in order |
| Statements.Builder.Infos | src/sipka/syntax/parser/model/statement/CollectionStatement.java:56-62 | the parsing informations of the children, one per child, in order |
| Statements.Builder.Build | src/sipka/syntax/parser/model/statement/CollectionStatement.java:38-42 | building succeeds exactly when the position is inside the region of interest, and yields a collection over that region of the document with the children's statements |
| Statements.Builder.Fail | src/sipka/syntax/parser/model/statement/CollectionStatement.java:44-46 | a failed result keeps the information and has no statement |
| Contexts.Consulted | lib/src/sipka/syntax/parser/model/parse/context/ParseContext.java:76-90 | a lookup always consults the context's own locals first |
| Contexts.LookupIsFirstBinding | lib/src/sipka/syntax/parser/model/parse/context/ParseContext.java:76-90 | getObjectForName answers with the innermost binding among the scopes it consults, and with the default exactly when none of them binds the name |
| Contexts.BuiltinsOnlyHidesParent | lib/src/sipka/syntax/parser/model/parse/context/ParseContext.java:82-86 | behind the builtins-only flag a non-builtin name is looked up in the locals only, and otherwise gets the default |
| Contexts.ConsumerFromInnermostCalling | lib/src/sipka/syntax/parser/model/parse/context/ParseContext.java:65-70 | the current value consumer, when there is one, is the consumer of a calling context on the parent chain |
| Contexts.ToLocalsMap | lib/src/sipka/syntax/parser/model/parse/context/ParseContext.java:50-63 | toLocalsMap is an IllegalArgumentException exactly when two locals share a name; otherwise the map binds exactly the given names to their values |
| Contexts.NewDeclaringContext | lib/src/sipka/syntax/parser/model/parse/context/ParseContext.java:46-48 | a declaring context is built exactly from distinctly named locals, has no parent, and looks each local up to its value |
| Contexts.Merge | src/sipka/syntax/parser/model/parse/context/CallingContext.java:23-25 | merge makes a calling context over contexta with contextb's locals and contextb's consumer |
| Contexts.MergeLookup | src/sipka/syntax/parser/model/parse/context/CallingContext.java:23-25 | a lookup through a merge sees contextb's locals first and then contexta; the consumer is contextb's |
| Contexts.MergeWithBuiltIns | src/sipka/syntax/parser/model/parse/context/CallingContext.java:27-30 | the merged context holds the variables, flags its parent builtins-only, and the parent holds contextb's locals over contexta |
| Contexts.MergeWithBuiltInsLookup | src/sipka/syntax/parser/model/parse/context/CallingContext.java:27-30 | a lookup sees the variables first; beyond them only builtin names reach contextb's locals and then contexta; the consumer is contexta's |
| Contexts.WithConsumer | src/sipka/syntax/parser/model/parse/context/CallingContext.java:45-48 | the calling context copies only the locals and carries the given consumer |
| Contexts.WithConsumerLookup | src/sipka/syntax/parser/model/parse/context/CallingContext.java:45-48 | it looks up names in the copied locals only, and its consumer is the given one |
| Contexts.ContextEqualsReflexive | lib/src/sipka/syntax/parser/model/parse/context/ParseContext.java:110-132 | equals is reflexive |
| Contexts.ContextEqualsSymmetric | lib/src/sipka/syntax/parser/model/parse/context/ParseContext.java:110-132 | equals is symmetric |
| Contexts.ContextEqualsTransitive | lib/src/sipka/syntax/parser/model/parse/context/ParseContext.java:110-132 | equals is transitive |
| Contexts.EqualContextsLookAlike | lib/src/sipka/syntax/parser/model/parse/context/ParseContext.java:110-132 | equal contexts answer every lookup alike |
| Contexts.EqualityIgnoresConsumer | lib/src/sipka/syntax/parser/model/parse/context/ParseContext.java:110-132 | equals ignores the value consumer: two calling contexts that differ only in their consumer are equal |
| Contexts.Erased | lib/src/sipka/syntax/parser/model/parse/context/ParseContext.java:101-132 | the erasure keeps what equals compares (class, locals, flags) and holds no consumer |
| Contexts.ErasedIffEquals | lib/src/sipka/syntax/parser/model/parse/context/ParseContext.java:101-132 | two contexts are equal exactly when their erasures are identical, so the erasure serves as the hash key |
| Contexts.FollowEndsOnObject | src/sipka/syntax/parser/model/parse/params/VarReferenceParam.java:37-43 | a resolution that ends never ends on a parameter |
| Contexts.FollowFuelIrrelevant | src/sipka/syntax/parser/model/parse/params/VarReferenceParam.java:37-43 | once a resolution ends, more fuel gives the same answer |
| Contexts.SelfReferenceNeverResolves | src/sipka/syntax/parser/model/parse/params/VarReferenceParam.java:37-43 | a variable bound to a reference to itself never resolves: the loop runs out as a StackOverflowError |
| Contexts.ResolveReference | src/sipka/syntax/parser/model/parse/params/VarReferenceParam.java:37-43 | the loop follows the variable's binding through parameters exactly as the resolution does |
| Rules.ValueSequence | lib/src/sipka/syntax/parser/model/statement/Statement.java:158-160 | a collection's value sequence is empty; a leaf's or value statement's is its stored value |
| Rules.PrependTwice | lib/src/sipka/syntax/parser/model/rule/container/ContainerRule.java:86-101 | replayed text accumulates associatively: prepending two texts is prepending their concatenation |
| Rules.SkippedGoesThroughIffFits | lib/src/sipka/syntax/parser/model/rule/Rule.java:112-115 | repairStatementSkipped completes without an exception exactly when the statement fits the rule that produced it (the collection information and child counts match, all the way down) |
| Rules.SkippedChildrenGoThrough | lib/src/sipka/syntax/parser/model/rule/container/ContainerRule.java:86-101 | the container hook's loop over the children from index i completes exactly when there are enough child informations and every child fits its own rule |
| Rules.NoConsumerNoText | lib/src/sipka/syntax/parser/model/rule/consume/MatchesRule.java:58-65 | without a value consumer, skipping a statement appends nothing |
| Rules.ChildrenNoConsumerNoText | lib/src/sipka/syntax/parser/model/rule/container/ContainerRule.java:86-101 | the same for the container hook's loop over the children |
| Rules.ChildReplayed | lib/src/sipka/syntax/parser/model/rule/container/ContainerRule.java:95-99 | one step of the container hook: a child that goes through adds its text and the loop continues, a child that fails ends the loop with its exception, and nothing is added without a consumer |
| Rules.RepairSkipped | lib/src/sipka/syntax/parser/model/rule/Rule.java:112-115 | the hook fails exactly when the statement does not fit, with that exception; the consumer receives exactly the replayed values |
| Rules.RepairSkippedChildren | lib/src/sipka/syntax/parser/model/rule/container/ContainerRule.java:86-101 | the container hook's loop: fails exactly when some child does not fit, with its exception; the consumer receives the children's replayed values in order |
| Rules.ParseHelper.constructor | src/sipka/syntax/parser/model/rule/ParseHelper.java:87-89 | a helper starts with no recorded results |
| Rules.ParseHelper.RuleParsed | lib/src/sipka/syntax/parser/model/rule/Rule.java:88 | records the result under the rule, offset and context and changes nothing else |
| Rules.SameKeyIffEqualContexts | lib/src/sipka/syntax/parser/model/rule/Rule.java:71-88 | two lookups of one rule at one offset meet in the recorded results exactly when their contexts are equal |
| Rules.RepairAndAdjustDocument | lib/src/sipka/syntax/parser/model/rule/Rule.java:117-121 | the hook runs first: when it fails the document is left as it was, otherwise the document advances by the statement's length; the consumer receives the replayed values |
| Rules.ParseStatement | lib/src/sipka/syntax/parser/model/rule/Rule.java:62-90 | a cancelled parse throws; a result recorded under an equal context is reused through the hook; otherwise the rule parses a copy, the document advances only on success by the consumed length, and the result is recorded |
| Rules.RepairStatement | lib/src/sipka/syntax/parser/model/rule/Rule.java:92-110 | the same without the cancellation check, and the document is the one the rule repaired |
| Rules.FreshParseBehaves | lib/src/sipka/syntax/parser/model/rule/Rule.java:80-89 | a fresh parse whose rule keeps to its copy consumes exactly its statement's length on success and nothing on failure |
| Rules.ReusedParseBehaves | lib/src/sipka/syntax/parser/model/rule/Rule.java:71-78 | reusing a recorded successful result that fits its rule consumes exactly its statement's length and returns the recorded result |
| Rules.RecordedParseRepeats | lib/src/sipka/syntax/parser/model/rule/Rule.java:71-88 | a second parse of the same rule at the same offset, in any context equal to the first one (its consumer may differ), returns the first result, whatever the rule would compute the second time |
| Rules.ParseIsRepairWhenFailuresConsumeNothing | lib/src/sipka/syntax/parser/model/rule/Rule.java:84-87 | when a failed parse moved nothing, parsing and repairing the same rule agree |
| Rules.CancelledParseDoesNothing | lib/src/sipka/syntax/parser/model/rule/Rule.java:64-66 | a cancelled parse is ParsingCancelledException, consumes nothing and records nothing |
| Rules.RolledBack | lib/src/sipka/syntax/parser/model/rule/container/ContainerRule.java:50-65 | a container's result and consumption are kept; its text is kept only on success |
| Rules.WithRollback | lib/src/sipka/syntax/parser/model/rule/container/ContainerRule.java:50-84 | the consumer's length is saved and restored after a failed parse, so it ends up holding exactly the rolled-back text |
| Rules.FailedContainerLeavesNoText | lib/src/sipka/syntax/parser/model/rule/container/ContainerRule.java:58-63 | a container that fails leaves nothing in the consumer, both when parsing and when repairing |
| Rules.ParameterNameIsBuiltin | lib/src/sipka/syntax/parser/model/rule/Rule.java:151-153 | a parameter name starts with the builtin prefix |
| Rules.IntToStringSign | lib/src/sipka/syntax/parser/model/rule/Rule.java:152 | the decimal form of the rule id is non-empty, starts with '-' exactly for a negative id, and has no '_' |
| Rules.IntToStringInjective | lib/src/sipka/syntax/parser/model/rule/Rule.java:152 | different rule ids print differently |
| Rules.ParameterNameInjective | lib/src/sipka/syntax/parser/model/rule/Rule.java:151-153 | createParameterName is injective in the rule id and the name |
| Containers.Copies | src/sipka/syntax/parser/model/rule/container/order/InOrderRule.java:99-105 | the copies added for a zero-length success are exactly max(n, 0) copies of that result |
| Containers.Repetitions | src/sipka/syntax/parser/model/rule/container/order/InOrderRule.java:88-110 | the repetition loop never moves backwards and never past the end of the document |
| Containers.StatementsOf | src/sipka/syntax/parser/model/statement/CollectionStatement.java:48-54 | of succeeded results, one statement per result, in order |
| Containers.InfosOf | src/sipka/syntax/parser/model/statement/CollectionStatement.java:56-62 | one information per result, in order |
| Containers.RepetitionsProgress | src/sipka/syntax/parser/model/rule/container/order/InOrderRule.java:88-110 | the loop only moves forward, its region of interest only grows and keeps the offset inside, earlier results are kept and every result added succeeded |
| Containers.RepetitionsRegion | src/sipka/syntax/parser/model/rule/container/order/InOrderRule.java:92 | the region of interest after the loop encloses the one before and still contains the offset |
| Containers.RepetitionsResults | src/sipka/syntax/parser/model/rule/container/order/InOrderRule.java:94-109 | the loop keeps the results it had and adds only succeeded ones |
| Containers.RepetitionsCountsResults | src/sipka/syntax/parser/model/rule/container/order/InOrderRule.java:98-109 | for a count policy whose required-more is never negative, the loop adds exactly as many results as it counts occurrences |
| Containers.RepetitionsStops | src/sipka/syntax/parser/model/rule/container/order/InOrderRule.java:88-107 | the loop stops only when the counter accepts no more, the child fails, or the child consumed nothing; a loop that did not move added only the required copies of the last result |
| Containers.RepetitionsIgnoresRoi | src/sipka/syntax/parser/model/rule/container/order/InOrderRule.java:92 | the region of interest never influences the offset, results or count of the loop |
| Containers.ParseChild | src/sipka/syntax/parser/model/rule/container/order/InOrderRule.java:89-90 | parsing a child gives the child's result and advances the document by what it consumed, keeping its end |
| Containers.AddCopies | src/sipka/syntax/parser/model/rule/container/order/InOrderRule.java:102-104 | the builder gets exactly the n copies of the result |
| Containers.AddRequiredCopies | src/sipka/syntax/parser/model/rule/container/order/InOrderRule.java:99-105 | the counter grows by the required-more count and the builder by as many copies of the result |
| Containers.RepeatOnce | src/sipka/syntax/parser/model/rule/container/order/InOrderRule.java:89-109 | one turn of the loop: either the loop ends in the state the repetition function gives, or the document shrank and the rest of the loop reaches the same state |
| Containers.Repeat | src/sipka/syntax/parser/model/rule/container/order/InOrderRule.java:88-110 | the while loop leaves the document, region, builder and counter exactly as the repetition function says |
| Containers.BuildFinishes | src/sipka/syntax/parser/model/rule/container/order/InOrderRule.java:115-116 | building the collection over the consumed span is the finishing step of a completed run |
| Containers.Conclude | src/sipka/syntax/parser/model/rule/container/order/InOrderRule.java:230-232 | the original document catches up with the working copy, and the result is the finished collection |
| ConsumeRules.MaxOfIsLeastUpperBound | src/sipka/syntax/parser/model/rule/consume/AccessTrackingCharSequence.java:71-77 | the furthest index reached is at least the start and every inspected index, and is one of them |
| ConsumeRules.AccessTracker.constructor | src/sipka/syntax/parser/model/rule/consume/AccessTrackingCharSequence.java:55-60 | a new tracker wraps the sequence and has accessed nothing (-1) |
| ConsumeRules.AccessTracker.CharAt | src/sipka/syntax/parser/model/rule/consume/AccessTrackingCharSequence.java:71-77 | charAt reads through to the wrapped sequence and raises the furthest index to the one read |
| ConsumeRules.AccessTracker.SubCharAt | src/sipka/syntax/parser/model/rule/consume/AccessTrackingCharSequence.java:40-47 | a read through a sub-sequence is tracked at its index in the whole sequence |
| ConsumeRules.Find | src/sipka/syntax/parser/model/rule/consume/ConsumeRule.java:70-76 | the matcher's reads succeed exactly when every inspected index can be read, and leave the furthest index at the maximum of them |
| ConsumeRules.TryParse | src/sipka/syntax/parser/model/rule/consume/ConsumeRule.java:68-104 | tryParse agrees with the scan: region of interest, parsed range, exception and appended value; a match starts the region at the document offset and fits within the document and the region |
| ConsumeRules.ParseStatementImpl | src/sipka/syntax/parser/model/rule/consume/ConsumeRule.java:106-121 | on success the document advances by the matched length and the result is the consumed statement over the match; a failed match consumes nothing; exceptions leave the document |
| ConsumeRules.RegionCoversEveryRead | src/sipka/syntax/parser/model/rule/consume/ConsumeRule.java:78-86 | the region of interest starts at the document offset and covers every character the matcher read, plus one past the end when the matcher hit the end; otherwise it ends just after the furthest read |
| ConsumeRules.AssertionIffMatchOutrunsRegion | src/sipka/syntax/parser/model/rule/consume/ConsumeRule.java:94-100 | the AssertionError is thrown exactly when a match at 0 ends past the region of interest |
| ConsumeRules.ReadMatchNeverAsserts | src/sipka/syntax/parser/model/rule/consume/ConsumeRule.java:94-100 | a matcher that read every character it matched never triggers the AssertionError |
| ConsumeRules.ConsumeFailsOnlyWhen | src/sipka/syntax/parser/model/rule/consume/ConsumeRule.java:68-121 | a consume rule fails exactly on an unreadable inspection, or on a match at 0 that outruns the region or the input |
| ConsumeRules.ConsumeBehaves | src/sipka/syntax/parser/model/rule/consume/ConsumeRule.java:106-121 | a consume rule behaves as the containers assume: it consumes its statement's length inside its region; a miss consumes and appends nothing; a match is a leaf over exactly the consumed characters, appended to the consumer by a matches rule |
| ConsumeRules.ConsumedLeaf | src/sipka/syntax/parser/model/rule/consume/ConsumeRule.java:101-120 | the consumed leaf is a well-formed view of the first moved characters, and only a matches rule with a consumer appends them |
| ValueRules.ValueInfo | src/sipka/syntax/parser/model/rule/container/value/ValueRule.java:77-78 | the value information has the children's region of interest and the children's information as its only child |
| ValueRules.ExecuteParsing | src/sipka/syntax/parser/model/rule/container/value/ValueRule.java:69-86 | the children run with a fresh consumer, and the parsed value collects exactly the text they appended; the result is the value outcome of the children's effect |
| ValueRules.RepairChildren | src/sipka/syntax/parser/model/rule/container/value/ValueRule.java:94-103 | a statement or information of the wrong kind is a ClassCastException; otherwise the sub-statement is repaired with a fresh consumer and wrapped alike |
| ValueRules.ValueIsTheChildrenText | src/sipka/syntax/parser/model/rule/container/value/ValueRule.java:76-85 | a value statement succeeds exactly when the children succeed with text (when non-empty is required) and lie in their region; it is named after the rule, wraps the children's statement at its position and holds their text |
| ValueRules.ValueThrowsOnlyOutsideRegion | src/sipka/syntax/parser/model/rule/container/value/ValueRule.java:79-85 | the only exception is IllegalStateException, exactly for a successful child outside its region of interest |
| ValueRules.ChildrenSeeOnlyTheNewConsumer | src/sipka/syntax/parser/model/rule/container/value/ValueRule.java:71-72 | the children see the new consumer and the caller's locals only; skipping a value statement replays nothing |
| InvokeRules.Declared | src/sipka/syntax/parser/model/rule/invoke/InvokeRule.java:89-101 | a declaration found for the invocation is always one whose declaring context is defined |
| InvokeRules.Argument | src/sipka/syntax/parser/model/rule/invoke/InvokeRule.java:121-126 | an argument that passes is an object that is an instance of the declared parameter class |
| InvokeRules.BindArguments | src/sipka/syntax/parser/model/rule/invoke/InvokeRule.java:112-130 | the loop binds the arguments exactly as the binding function does, stopping at the first failing argument |
| InvokeRules.FirstFailureSticks | src/sipka/syntax/parser/model/rule/invoke/InvokeRule.java:117-126 | the first argument that fails decides the exception of the whole binding |
| InvokeRules.FailureStaysFailure | src/sipka/syntax/parser/model/rule/invoke/InvokeRule.java:117-126 | once binding fails, binding more arguments gives the same failure |
| InvokeRules.ExecuteParsing | src/sipka/syntax/parser/model/rule/invoke/InvokeRule.java:87-148 | executeParsing computes exactly the invocation outcome: checks, binding, the invoked rule's run and the wrapping |
| InvokeRules.RepairStatementImpl | src/sipka/syntax/parser/model/rule/invoke/InvokeRule.java:195-204 | the wrong kind of information is a ClassCastException; otherwise the repair runs the invocation on the statement's first child with the sub-information |
| InvokeRules.FatalIffNoDefinedDeclaration | src/sipka/syntax/parser/model/rule/invoke/InvokeRule.java:89-101 | FatalParseException is raised exactly when the rule parameter resolves to nothing, to something other than a rule declaration, or to a declaration without a declaring context |
| InvokeRules.BoundNeverFatal | src/sipka/syntax/parser/model/rule/invoke/InvokeRule.java:117-130 | binding arguments only fails with StackOverflowError, NullPointerException or IllegalArgumentException |
| InvokeRules.FollowFails | src/sipka/syntax/parser/model/rule/invoke/InvokeRule.java:121 | resolving a parameter fails only by running out: StackOverflowError |
| InvokeRules.BoundIffEveryArgumentPasses | src/sipka/syntax/parser/model/rule/invoke/InvokeRule.java:117-130 | binding succeeds exactly when every argument resolves to an instance of its declared class |
| InvokeRules.BoundNamesTheParameters | src/sipka/syntax/parser/model/rule/invoke/InvokeRule.java:128 | the bound variables are exactly the parameter names of the declared parameters |
| InvokeRules.BoundHoldsEachArgument | src/sipka/syntax/parser/model/rule/invoke/InvokeRule.java:117-130 | with distinct parameter names, each parameter name is bound to its own argument's value |
| InvokeRules.InvokedRuleSeesItsArguments | src/sipka/syntax/parser/model/rule/invoke/InvokeRule.java:132-133 | inside the invoked rule each parameter name looks up its argument, non-builtin names of the caller are hidden, and the consumer is the caller's |
| InvokeRules.InvokeWrapsTheInvokedStatement | src/sipka/syntax/parser/model/rule/invoke/InvokeRule.java:137-147 | the invocation consumes and appends what the invoked rule did; on success it is a collection over the invoked statement's region with that statement (renamed to the alias when it is a value statement) as its only child |
| InvokeRules.RepairChecksInOrder | src/sipka/syntax/parser/model/rule/invoke/InvokeRule.java:196-204 | repairing a statement without children fails: the checks of the invocation come first, then IndexOutOfBoundsException |
| Grammar.HookOf | lib/src/sipka/syntax/parser/model/rule/container/ContainerRule.java:86-101 | the three order rules use the container hook and the matches rule its own; every other rule keeps the empty default |
| Grammar.Rule.constructor | lib/src/sipka/syntax/parser/model/rule/Rule.java:38-40 | a new rule has its name and type, no children and no id yet |
| Grammar.Rule.AddChild | lib/src/sipka/syntax/parser/model/rule/container/ContainerRule.java:103-106 | addChild appends the child and returns the rule itself |
| Grammar.AnchoredUnwraps | lib/src/sipka/syntax/parser/model/rule/RuleFactory.java:33 | the compiled pattern is the user's pattern between the fixed anchor prefix and a closing parenthesis |
| Grammar.AnchoredInjective | lib/src/sipka/syntax/parser/model/rule/RuleFactory.java:33 | different patterns compile to different anchored patterns |
| Grammar.RuleFactory.constructor | lib/src/sipka/syntax/parser/model/rule/RuleFactory.java:20-21 | a new factory has issued nothing and its counter is 0 |
| Grammar.RuleFactory.Pattern | lib/src/sipka/syntax/parser/model/rule/RuleFactory.java:27-37 | pattern succeeds exactly when the anchored pattern compiles and returns it; otherwise IllegalArgumentException |
| Grammar.RuleFactory.CreateRule | lib/src/sipka/syntax/parser/model/rule/RuleFactory.java:39-42 | each rule created gets the next id, one more than the counter before |
| Grammar.RuleFactory.CreateValueRule | lib/src/sipka/syntax/parser/model/rule/RuleFactory.java:126-138 | a value rule is created with the next id and its one child |
| Grammar.RuleFactory.IdsIncrease | lib/src/sipka/syntax/parser/model/rule/RuleFactory.java:39-42 | rules issued later have larger ids, so no two issued rules share an id |
| InOrder.RunMatchesIffAllValid | src/sipka/syntax/parser/model/rule/container/order/InOrderRule.java:80-114 | an in-order run matches exactly when every child rule ends with a valid occurrence count; a failed run stops at the first child whose count is invalid |
| InOrder.RunProgress | src/sipka/syntax/parser/model/rule/container/order/InOrderRule.java:80-114 | the run only moves forward within the document, and its region of interest grows and contains the offset |
| InOrder.RunGathersSuccesses | src/sipka/syntax/parser/model/rule/container/order/InOrderRule.java:80-114 | every result the run gathers succeeded |
| InOrder.InOrderParseNeverThrows | src/sipka/syntax/parser/model/rule/container/order/InOrderRule.java:70-117 | parseChildren of well-behaved children never throws, and succeeds exactly when the run matches |
| InOrder.ParseRunStep | src/sipka/syntax/parser/model/rule/container/order/InOrderRule.java:80-114 | one child rule: its repetitions, then failure on an invalid count or the next child rule |
| InOrder.RunChild | src/sipka/syntax/parser/model/rule/container/order/InOrderRule.java:83-110 | running one child rule with a fresh counter leaves the document, region, builder and count as its repetitions say |
| InOrder.InOrderParseFinishes | src/sipka/syntax/parser/model/rule/container/order/InOrderRule.java:111-116 | the parse ends in the finishing step of the run, with an information listing the children's informations |
| InOrder.RunChildren | src/sipka/syntax/parser/model/rule/container/order/InOrderRule.java:80-114 | the for loop over the child rules leaves the state the run says |
| InOrder.ParseChildren | src/sipka/syntax/parser/model/rule/container/order/InOrderRule.java:70-117 | parseChildren is the in-order parse of its input, keeps the document's end, and advances by the statement's length on success |
| InOrderRepair.RepairChild | src/sipka/syntax/parser/model/rule/container/order/InOrderRule.java:157-224 | repairing one child rule never walks back over the previous children and never passes the end |
| InOrderRepair.Completed | src/sipka/syntax/parser/model/rule/container/order/InOrderRule.java:225-232 | an exception of the run is passed on; a completed repair keeps the run's replayed text |
| InOrderRepair.RepairRunWithoutPreviousIsParseRun | src/sipka/syntax/parser/model/rule/container/order/InOrderRule.java:150-228 | with no previous children left, the repair run is the parse run and replays nothing |
| InOrderRepair.RepairWithoutPreviousIsParse | src/sipka/syntax/parser/model/rule/container/order/InOrderRule.java:120-233 | repairing a statement without children is parsing afresh |
| InOrderRepair.RepairRunStep | src/sipka/syntax/parser/model/rule/container/order/InOrderRule.java:150-228 | one child rule of the repair: reuse or repair its previous statements, then parse more; fail on an exception or an invalid count, otherwise go on with the next child rule |
| InOrderRepair.RepairRuleChild | src/sipka/syntax/parser/model/rule/container/order/InOrderRule.java:157-227 | the loops for one child rule leave the document, region, builder and counter as the repair step says and fail with its exception; the consumer holds the replayed text |
| InOrderRepair.RepairRuleChildren | src/sipka/syntax/parser/model/rule/container/order/InOrderRule.java:150-228 | the for loop over the child rules leaves the state of the repair run, or fails with its exception |
| InOrderRepair.Prepare | src/sipka/syntax/parser/model/rule/container/order/InOrderRule.java:123-129 | the working copy views the same document, the builder is empty, and the region starts empty at the offset |
| InOrderRepair.ConcludeRepair | src/sipka/syntax/parser/model/rule/container/order/InOrderRule.java:225-232 | the repair ends in its completion: the document catches up with the working copy on success and is left on failure |
| InOrderRepair.RepairChildren | src/sipka/syntax/parser/model/rule/container/order/InOrderRule.java:119-233 | repairChildren is the in-order repair of its input: same result or exception, the consumer holds the replayed text, and the document advances by the statement's length on success |
| InOrderRepair.RepairOnCopy | src/sipka/syntax/parser/model/rule/container/order/InOrderRule.java:123-232 | the work on the copy ends in the completion of the repair run from the start offset |
| FirstOrder.Alternatives | lib/src/sipka/syntax/parser/model/rule/container/order/FirstOrderRule.java:83-121 | an alternative picked is one of the remaining child rules, and its occurrence count is valid |
| FirstOrder.Settle | lib/src/sipka/syntax/parser/model/rule/container/order/FirstOrderRule.java:114-121 | the parse succeeds exactly when an alternative is picked, and the statement spans from the start to where that alternative stopped |
| FirstOrder.PicksFirstValid | lib/src/sipka/syntax/parser/model/rule/container/order/FirstOrderRule.java:83-121 | firstOrder picks the first child rule that is valid when tried alone from the start, with that trial's offset and results; nothing is picked exactly when no child rule is valid alone |
| FirstOrder.AlternativesProgress | lib/src/sipka/syntax/parser/model/rule/container/order/FirstOrderRule.java:83-121 | the region of interest grows over every tried alternative; a picked alternative stays within the document, lies in the region and gathered only succeeded results |
| FirstOrder.FirstOrderParseNeverThrows | lib/src/sipka/syntax/parser/model/rule/container/order/FirstOrderRule.java:73-122 | parseChildren of well-behaved children never throws, and succeeds exactly when some child rule is valid alone |
| FirstOrder.Settled | lib/src/sipka/syntax/parser/model/rule/container/order/FirstOrderRule.java:215-222 | an exception of the repair is passed on; a settled repair keeps the replayed text |
| FirstOrder.RepairAlternativesAsParse | lib/src/sipka/syntax/parser/model/rule/container/order/FirstOrderRule.java:145-221 | without previous children to reuse, the repair tries the alternatives exactly as parsing does and replays nothing |
| FirstOrder.RepairAsParse | lib/src/sipka/syntax/parser/model/rule/container/order/FirstOrderRule.java:124-223 | repairing a statement without reusable children is parsing afresh |
| FirstOrder.StartAlternative | lib/src/sipka/syntax/parser/model/rule/container/order/FirstOrderRule.java:84-90 | each alternative starts from a fresh copy of the document, an empty builder and a fresh counter |
| FirstOrder.TryAlternative | lib/src/sipka/syntax/parser/model/rule/container/order/FirstOrderRule.java:84-113 | trying one alternative leaves the copy, region, builder and count as its repetitions say |
| FirstOrder.AlternativesStep | lib/src/sipka/syntax/parser/model/rule/container/order/FirstOrderRule.java:83-120 | one alternative: its repetitions, then pick it when its count is valid or go on with the next |
| FirstOrder.TryAlternatives | lib/src/sipka/syntax/parser/model/rule/container/order/FirstOrderRule.java:83-120 | the for loop picks exactly when an alternative is picked, and then holds its state |
| FirstOrder.TakePicked | lib/src/sipka/syntax/parser/model/rule/container/order/FirstOrderRule.java:114-118 | the document catches up with the picked alternative's copy, and the result is the settled parse |
| FirstOrder.ParseChildren | lib/src/sipka/syntax/parser/model/rule/container/order/FirstOrderRule.java:73-122 | parseChildren is the first-order parse of its input; on failure the document is left, on success it advances by the statement's length |
| FirstOrder.TryChosenAlternative | lib/src/sipka/syntax/parser/model/rule/container/order/FirstOrderRule.java:153-214 | the previously chosen alternative first reuses or repairs its previous children, failing with the exception of that walk, and then parses more repetitions |
| FirstOrder.RepairAlternativesStep | lib/src/sipka/syntax/parser/model/rule/container/order/FirstOrderRule.java:145-220 | one alternative of the repair: the chosen one walks its previous children first; then its repetitions; pick it on a valid count or go on |
| FirstOrder.TryRepairAlternatives | lib/src/sipka/syntax/parser/model/rule/container/order/FirstOrderRule.java:145-221 | the for loop of the repair matches the repair of the alternatives: same exception, same pick, same state, and the consumer holds the replayed text |
| FirstOrder.TakeRepaired | lib/src/sipka/syntax/parser/model/rule/container/order/FirstOrderRule.java:215-222 | the repair is settled: the document catches up on a pick and is left otherwise |
| FirstOrder.RepairChildren | lib/src/sipka/syntax/parser/model/rule/container/order/FirstOrderRule.java:124-223 | a previous information of the wrong kind is a ClassCastException; otherwise repairChildren is the first-order repair of its input, with the same result or exception and the replayed text in the consumer |
| FirstOrder.RepairChosen | lib/src/sipka/syntax/parser/model/rule/container/order/FirstOrderRule.java:128-222 | the repair given the previously chosen alternative settles the repaired alternatives from the start offset |
| AnyOrder.Taken | src/sipka/syntax/parser/model/rule/container/order/AnyOrderRule.java:204-210 | taking an unmodified previous child advances past it, adds it as a result and keeps the counted rules |
| AnyOrder.Policies | src/sipka/syntax/parser/model/rule/container/order/AnyOrderRule.java:80-86 | the occurrence map has a policy for every child rule |
| AnyOrder.PoliciesLastWins | src/sipka/syntax/parser/model/rule/container/order/AnyOrderRule.java:80-86 | a rule listed twice gets the policy of its last listing, as HashMap.put overwrites |
| AnyOrder.Zeros | src/sipka/syntax/parser/model/rule/container/order/AnyOrderRule.java:83 | every counter starts at zero, one per rule of the map |
| AnyOrder.Step | src/sipka/syntax/parser/model/rule/container/order/AnyOrderRule.java:120-149 | one turn of executeParsing's loop either restarts from the first child after a success that consumed input, or moves to the next child without moving in the document |
| AnyOrder.Scan | src/sipka/syntax/parser/model/rule/container/order/AnyOrderRule.java:116-150 | the loop keeps one counter per rule and never moves backwards or past the end |
| AnyOrder.Settle | src/sipka/syntax/parser/model/rule/container/order/AnyOrderRule.java:102-113 | the parse succeeds exactly when every rule's count is valid, and then spans from the start to the loop's offset |
| AnyOrder.Opening | src/sipka/syntax/parser/model/rule/container/order/AnyOrderRule.java:91-98 | the loop starts at the start offset with an empty region, no results and every count zero |
| AnyOrder.StepProgress | src/sipka/syntax/parser/model/rule/container/order/AnyOrderRule.java:120-149 | one turn grows the region of interest, keeps the offset in it, keeps the earlier results and adds only succeeded ones |
| AnyOrder.ScanProgress | src/sipka/syntax/parser/model/rule/container/order/AnyOrderRule.java:116-150 | the same holds over the whole loop |
| AnyOrder.StepGrows | src/sipka/syntax/parser/model/rule/container/order/AnyOrderRule.java:122-144 | a turn that does not restart only raises counts and leaves that child blocked: it cannot occur more, fails, or consumes nothing |
| AnyOrder.ScanStops | src/sipka/syntax/parser/model/rule/container/order/AnyOrderRule.java:116-150 | when the loop ends every child is blocked at the final state |
| AnyOrder.SettleNeverThrows | src/sipka/syntax/parser/model/rule/container/order/AnyOrderRule.java:102-113 | settling gathered successes inside the region never throws, and succeeds exactly when all counts are valid |
| AnyOrder.ScanFromOpening | src/sipka/syntax/parser/model/rule/container/order/AnyOrderRule.java:116-150 | a loop from the opening gathers only successes and stays inside its region |
| AnyOrder.AnyOrderParseNeverThrows | src/sipka/syntax/parser/model/rule/container/order/AnyOrderRule.java:88-114 | parseChildren of well-behaved children never throws, and succeeds exactly when every rule's final count is valid |
| AnyOrder.AnyOrderParseStops | src/sipka/syntax/parser/model/rule/container/order/AnyOrderRule.java:116-150 | when the parse ends no child rule could make progress any more |
| AnyOrder.Visit | src/sipka/syntax/parser/model/rule/container/order/AnyOrderRule.java:176-210 | one previous child: repaired or reused, the walk stays within the document and keeps one counter per rule |
| AnyOrder.Revisit | src/sipka/syntax/parser/model/rule/container/order/AnyOrderRule.java:176-211 | the walk over the previous children stays within the document and keeps one counter per rule |
| AnyOrder.RepairWithoutPreviousIsParse | src/sipka/syntax/parser/model/rule/container/order/AnyOrderRule.java:152-228 | repairing a statement without children is parsing afresh |
| AnyOrder.RevisitStep | src/sipka/syntax/parser/model/rule/container/order/AnyOrderRule.java:176-211 | the walk visits the previous children one after the other |
| AnyOrder.ReusableRest | src/sipka/syntax/parser/model/rule/container/order/AnyOrderRule.java:182 | when every remaining child sits where the walk will reach it unmodified, the same holds after taking one |
| AnyOrder.VisitReuses | src/sipka/syntax/parser/model/rule/container/order/AnyOrderRule.java:204-210 | an unmodified child at the current offset is reused through the hook: taken as it is, its values replayed |
| AnyOrder.TakenAll | src/sipka/syntax/parser/model/rule/container/order/AnyOrderRule.java:204-210 | taking all remaining children keeps the counted rules |
| AnyOrder.TakenAllAdvances | src/sipka/syntax/parser/model/rule/container/order/AnyOrderRule.java:204-210 | taking all remaining children advances past all of them and adds them as results in order |
| AnyOrder.RevisitReusesUnmodified | src/sipka/syntax/parser/model/rule/container/order/AnyOrderRule.java:176-211 | when nothing was modified and every child sits in place, the walk takes every previous child as it is |
| AnyOrder.RevisitReplaysHooks | src/sipka/syntax/parser/model/rule/container/order/AnyOrderRule.java:207 | the walk then replays exactly the hooks' texts of the reused children |
| AnyOrder.RevisitTakesAll | src/sipka/syntax/parser/model/rule/container/order/AnyOrderRule.java:176-211 | with nothing modified the walk ends after the last previous child, with all of them as results and their values replayed |
| AnyOrder.CreateOccurrencesMap | src/sipka/syntax/parser/model/rule/container/order/AnyOrderRule.java:80-86 | the loop builds the occurrence map and zero counts of the child rules |
| AnyOrder.ScanOne | src/sipka/syntax/parser/model/rule/container/order/AnyOrderRule.java:121-148 | one pass of the loop body leaves the state and the cursor that one turn says |
| AnyOrder.ExecuteParsing | src/sipka/syntax/parser/model/rule/container/order/AnyOrderRule.java:116-150 | the loop with its restarting iterator leaves exactly the state the scan says |
| AnyOrder.AllCountsValid | src/sipka/syntax/parser/model/rule/container/order/AnyOrderRule.java:102-108 | the loop over the entries finds every count valid exactly when all are |
| AnyOrder.SettleParse | src/sipka/syntax/parser/model/rule/container/order/AnyOrderRule.java:109-113 | the result is the settled parse of the loop's state |
| AnyOrder.AnyOrderParseIs | src/sipka/syntax/parser/model/rule/container/order/AnyOrderRule.java:88-114 | the any-order parse settles the scan from the opening |
| AnyOrder.Begin | src/sipka/syntax/parser/model/rule/container/order/AnyOrderRule.java:91-98 | parsing starts with the opening state |
| AnyOrder.ScanAndSettleParse | src/sipka/syntax/parser/model/rule/container/order/AnyOrderRule.java:100-113 | the loop and the validity check yield the settled scan, and the document advances by the statement's length on success |
| AnyOrder.ParseWith | src/sipka/syntax/parser/model/rule/container/order/AnyOrderRule.java:88-114 | parsing from the opening yields the settled scan |
| AnyOrder.ParseChildren | src/sipka/syntax/parser/model/rule/container/order/AnyOrderRule.java:88-114 | parseChildren is the any-order parse of its input under the occurrence map of its child rules |
| AnyOrder.RepairOne | src/sipka/syntax/parser/model/rule/container/order/AnyOrderRule.java:182-203 | a moved or modified child is repaired by its rule: same exception, and the state that step says |
| AnyOrder.ReuseOne | src/sipka/syntax/parser/model/rule/container/order/AnyOrderRule.java:204-210 | an unmodified child at the offset is reused through repairAndAdjustDocument: the hook's exception aborts, otherwise its values are replayed into the consumer |
| AnyOrder.VisitOne | src/sipka/syntax/parser/model/rule/container/order/AnyOrderRule.java:177-210 | one previous child is visited as the walk says, and the consumer holds the replayed text |
| AnyOrder.RevisitChildren | src/sipka/syntax/parser/model/rule/container/order/AnyOrderRule.java:176-211 | the while loop over the previous children leaves the state of the walk or fails with its exception |
| AnyOrder.SettleRepair | src/sipka/syntax/parser/model/rule/container/order/AnyOrderRule.java:214-227 | the repair settles the working copy; the document catches up with it on success and is left on failure |
| AnyOrder.AnyOrderRepairIs | src/sipka/syntax/parser/model/rule/container/order/AnyOrderRule.java:152-228 | the any-order repair is the walk over the previous children, then the loop, then settling |
| AnyOrder.ScanAndSettle | src/sipka/syntax/parser/model/rule/container/order/AnyOrderRule.java:212-227 | after the walk, the loop and settling yield the settled scan |
| AnyOrder.RepairFrom | src/sipka/syntax/parser/model/rule/container/order/AnyOrderRule.java:176-227 | the repair from the opening state fails with the walk's exception or settles the scan after it |
| AnyOrder.RepairWith | src/sipka/syntax/parser/model/rule/container/order/AnyOrderRule.java:152-228 | repairing with the given occurrence map is the any-order repair of the input |
| AnyOrder.RepairChildren | src/sipka/syntax/parser/model/rule/container/order/AnyOrderRule.java:152-228 | repairChildren is the any-order repair of its input: same result or exception, the replayed text in the consumer, and the document advances by the statement's length on success |
| PreviousChildren.Absorb | src/sipka/syntax/parser/model/rule/container/order/InOrderRule.java:164-180 | counting a repaired child keeps the region; a failed repair changes nothing |
| PreviousChildren.Reuse | src/sipka/syntax/parser/model/rule/container/order/InOrderRule.java:157-199 | the walk over the previous children of a rule only moves forward, stays within the document, and stops at the end or at a child of another rule |
| PreviousChildren.AdjustFitting | src/sipka/syntax/parser/model/rule/container/order/InOrderRule.java:184-186 | reusing a child that fits its rule and the remaining document succeeds with its own length and replays its values |
| PreviousChildren.ReuseFitting | src/sipka/syntax/parser/model/rule/container/order/InOrderRule.java:182-189 | an unmodified child at the offset is taken as it is: one more occurrence, its region joined, its values replayed, and the walk goes on |
| PreviousChildren.AsResults | src/sipka/syntax/parser/model/rule/container/order/InOrderRule.java:187 | one result per taken child |
| PreviousChildren.ReuseTakesUnmodified | src/sipka/syntax/parser/model/rule/container/order/InOrderRule.java:157-199 | with every child unmodified and in place, the walk takes them all: it advances past them, adds them in order and counts one occurrence each |
| PreviousChildren.ReuseReplaysHooks | src/sipka/syntax/parser/model/rule/container/order/InOrderRule.java:185 | the walk then replays exactly the hooks' texts of the taken children |
| PreviousChildren.RepairPrevious | src/sipka/syntax/parser/model/rule/container/order/InOrderRule.java:159-181 | repairing a moved or modified child counts it as the source does and joins its region of interest |
| PreviousChildren.ReusePrevious | src/sipka/syntax/parser/model/rule/container/order/InOrderRule.java:182-189 | reusing a child fails exactly when the hook fails or the child lies outside its region (IllegalStateException); otherwise it is counted, added and its region joined, and its values are replayed |
| PreviousChildren.ReuseChildren | src/sipka/syntax/parser/model/rule/container/order/InOrderRule.java:157-199 | the while loop over the previous children matches the walk: same exception, same next child, same state, and the consumer holds the replayed text |
| PreviousChildren.WalkThenRepeat | src/sipka/syntax/parser/model/rule/container/order/InOrderRule.java:157-224 | the walk over the previous children is followed by the repetition loop from where it stopped |
| PreviousChildren.VisitPrevious | src/sipka/syntax/parser/model/rule/container/order/InOrderRule.java:159-198 | one step of the walk: repair or reuse this child, fail with its exception, or go on with the next |
| StatementRepair.ShiftForDeleteIsPointMap | lib/src/sipka/syntax/parser/model/statement/Statement.java:228-248 | applying a deletion to a region moves each of its ends exactly as the character at that end moves: before the deletion it stays, inside it collapses onto the deletion offset, after it moves back by the deleted length |
| StatementRepair.DeleteKeepsExactlySurvivors | lib/src/sipka/syntax/parser/model/statement/Statement.java:228-248 | after a deletion a region contains exactly the new places of its characters that were not deleted |
| StatementRepair.InsertKeepsExactlyItsCharacters | lib/src/sipka/syntax/parser/model/statement/Statement.java:250-260 | with the intended insertion rule a region contains exactly the new places of its own characters, plus the inserted text when it went strictly inside the region |
| StatementRepair.InsertGrowsByInsertedLength | lib/src/sipka/syntax/parser/model/statement/Statement.java:250-260 | the intended insertion rule grows a region by the whole inserted length exactly when the insertion falls strictly inside it, and otherwise keeps its length |
| StatementRepair.InsertAsWrittenAgreesWhenTextFits | lib/src/sipka/syntax/parser/model/statement/Statement.java:250-260 | the insertion rule as written agrees with the intended one if and only if the insertion does not start inside the region and run past its end |
| StatementRepair.InsertAsWrittenLosesCharacters | lib/src/sipka/syntax/parser/model/statement/Statement.java:250-260 | inserting 5 characters at 8 into the region [0,10) gives [0,12) as written, so the region's own last character, now at 14, falls outside it; the intended rule gives [0,15) |
| StatementRepair.DeleteKeepsAligned | lib/src/sipka/syntax/parser/model/statement/Statement.java:299-314 | a statement position that starts where its region of interest starts and ends inside it still does so after a deletion, so the containment check cannot fail for such a pair |
| StatementRepair.InsertKeepsAligned | lib/src/sipka/syntax/parser/model/statement/Statement.java:317-332 | an aligned position and region of interest stay aligned after an insertion, under both the written and the intended insertion rule |
| StatementRepair.MisalignedPositionCanLeaveInterest | lib/src/sipka/syntax/parser/model/statement/Statement.java:326-332 | a position that does not start at its region of interest can be pushed out of it by an insertion at its start, which is the case the containment check reports as an illegal state |
| StatementRepair.CollectAllInformation | lib/src/sipka/syntax/parser/model/statement/Statement.java:202-226 | collecting the statement/information pairs succeeds if and only if the two trees have the same shape at every level; otherwise it is an illegal state; on success the root pair comes first |
| StatementRepair.ShiftStatement | lib/src/sipka/syntax/parser/model/statement/Statement.java:300-308 | shifting a statement tree for one change moves its position by the region rule and keeps its name and number of children |
| StatementRepair.ShiftInfo | lib/src/sipka/syntax/parser/model/statement/Statement.java:300-309 | shifting an information tree for one change moves its region of interest by the region rule and keeps its rule and number of children |
| StatementRepair.ShiftKeepsMatching | lib/src/sipka/syntax/parser/model/statement/Statement.java:300-327 | shifting both trees for a change keeps them of the same shape |
| StatementRepair.ShiftRegionKeepsAligned | lib/src/sipka/syntax/parser/model/statement/Statement.java:299-332 | the region rule used by repair keeps an aligned position inside its region of interest for every change |
| StatementRepair.CollectedShift | lib/src/sipka/syntax/parser/model/statement/Statement.java:300-327 | updating every collected pair in place is the same as shifting the two trees and collecting again, which is why the source may mutate the nodes through the map |
| StatementRepair.CollectedShiftAll | lib/src/sipka/syntax/parser/model/statement/Statement.java:292-335 | after any sequence of changes the collected pairs are the pairs of the trees shifted by all of them |
| StatementRepair.ShiftPairsAppend | lib/src/sipka/syntax/parser/model/statement/Statement.java:300-327 | shifting a list of pairs distributes over concatenation |
| StatementRepair.GrowthSum | lib/src/sipka/syntax/parser/model/statement/Statement.java:262-275 | the sum of the positive growths is never negative and never below the total length change |
| StatementRepair.GrowthSumOfPrefix | lib/src/sipka/syntax/parser/model/statement/Statement.java:262-275 | after any prefix of the edits the text is never longer than the original plus the total growth of all edits |
| StatementRepair.GetFinalLength | lib/src/sipka/syntax/parser/model/statement/Statement.java:262-275 | the final length is the original plus the sum of every edit's inserted minus deleted length, and the second result is the sum of the positive differences only |
| StatementRepair.SpliceAll | lib/src/sipka/syntax/parser/model/statement/Statement.java:292-298 | applying the edits one after the other, when each stays within the text, yields a text whose length is the original plus the total length change |
| StatementRepair.SpliceAllOfPrefix | lib/src/sipka/syntax/parser/model/statement/Statement.java:292-298 | when the whole sequence of edits applies, every prefix of it applies too |
| StatementRepair.SpliceAllStep | lib/src/sipka/syntax/parser/model/statement/Statement.java:292-298 | applying one more edit splices its text over the range it names, which lies within the text built so far |
| StatementRepair.CopyOfRange | lib/src/sipka/syntax/parser/model/statement/Statement.java:288-289 | copying a range succeeds if and only if the start lies within the data and does not exceed the end; the copy has the requested length, holds the data at the range and pads with zero characters past its end |
| StatementRepair.ShiftForEdits | lib/src/sipka/syntax/parser/model/statement/Statement.java:277-335 | on same-shaped trees the repair loop returns the trees shifted by every deletion and insertion, their collected pairs, the set of pairs whose region of interest the edits touched, and the new text, which equals the edits applied to the raw text; mismatched trees are an illegal state, and an aligned tree with in-range edits always succeeds |
| StatementRepair.CopyRawText | lib/src/sipka/syntax/parser/model/statement/Statement.java:283-289 | the working buffer starts with the raw text and is large enough for every intermediate text, and the final length is the original plus the total change |
| StatementRepair.ShiftAllEdits | lib/src/sipka/syntax/parser/model/statement/Statement.java:292-335 | the in-place loop over the edits computes the same result as replaying the changes on the pairs, and leaves the fully edited text in the buffer |
| StatementRepair.EditStep | lib/src/sipka/syntax/parser/model/statement/Statement.java:293-334 | one edit splices the buffer to the next text, advances the working length by inserted minus deleted, and replays its deletion then its insertion on the pairs |
| StatementRepair.SpliceStages | lib/src/sipka/syntax/parser/model/statement/Statement.java:292-298 | the texts between edits each follow from the previous by one splice and none is longer than the original plus the total growth |
| StatementRepair.SpliceText | lib/src/sipka/syntax/parser/model/statement/Statement.java:297 | one edit applied to the working buffer leaves the splice of the edit's text over its range, or an index error when the buffer is too short |
| StatementRepair.ApplyChange | lib/src/sipka/syntax/parser/model/statement/Statement.java:300-333 | applying one change to every pair marks the pairs whose region of interest it touches and fails with an illegal state exactly when some position leaves its region of interest |
| StatementRepair.ReplayStopsAtError | lib/src/sipka/syntax/parser/model/statement/Statement.java:311-313 | once the replay has failed, later edits do not change the failure |
| StatementRepair.ReplayFailsOnlyOnContainment | lib/src/sipka/syntax/parser/model/statement/Statement.java:311-332 | the only way the replay of the edits fails is the containment check's illegal state |
| StatementRepair.ModifiedStep | lib/src/sipka/syntax/parser/model/statement/Statement.java:300-325 | the pairs marked after one more change are those marked before plus those whose shifted region of interest the change touches |
| StatementRepair.AdvanceShifts | lib/src/sipka/syntax/parser/model/statement/Statement.java:300-333 | a successful step keeps the progress equal to the pairs shifted by every change so far and the set of pairs touched so far |
| StatementRepair.AdvanceEditShifts | lib/src/sipka/syntax/parser/model/statement/Statement.java:299-334 | an edit's deletion followed by its insertion keeps the progress in step with the changes so far |
| StatementRepair.ChangesOfSplit | lib/src/sipka/syntax/parser/model/statement/Statement.java:299-334 | an edit contributes its deletion when it deletes something and then its insertion when it inserts something |
| StatementRepair.ReplayShifts | lib/src/sipka/syntax/parser/model/statement/Statement.java:292-335 | after any number of edits a successful replay holds the pairs shifted by every change so far, the touched set, and every position inside its region of interest |
| StatementRepair.AdvanceAligned | lib/src/sipka/syntax/parser/model/statement/Statement.java:299-332 | when every pair is aligned a change never trips the containment check and leaves every pair aligned |
| StatementRepair.ReplayAligned | lib/src/sipka/syntax/parser/model/statement/Statement.java:292-335 | when every pair is aligned the replay of any in-range edits succeeds and keeps every pair aligned |
| StatementRepair.RepairTailCoversNewText | lib/src/sipka/syntax/parser/model/statement/Statement.java:336-348 | when the root's region of interest was not touched the shifted trees are returned through the ParsingResult constructor, failing exactly when the root's region of interest does not contain its region; otherwise the result is the root rule's repair, accepted exactly when it parsed a statement ending at the new text's length, and a parse failure otherwise |
| StatementRepair.Repair | lib/src/sipka/syntax/parser/model/statement/Statement.java:351-360 | no edits returns the statement and its information unchanged through the checked ParsingResult constructor; mismatched trees are an illegal state; otherwise a success either covers the whole new text after the root was re-parsed or is exactly the shifted trees when the root was untouched |
| Modifiables.IndexOf | lib/src/sipka/syntax/parser/model/statement/modifiable/ModifiableStatement.java:331-333 | the index of a child is the first position holding it, or -1 exactly when it is not a child |
| Modifiables.RemoveFirst | lib/src/sipka/syntax/parser/model/statement/modifiable/ModifiableStatement.java:291-297 | removing from a child list drops the first occurrence only and leaves a list without it unchanged |
| Modifiables.InsertAt | lib/src/sipka/syntax/parser/model/statement/modifiable/ModifiableStatement.java:104-113 | inserting into a child list at an index places the object there and shifts the rest one place later |
| Modifiables.Put | lib/src/sipka/syntax/parser/model/statement/modifiable/ModifiableStatement.java:340-342 | setting a child at an index replaces that position only |
| Modifiables.Drop | lib/src/sipka/syntax/parser/model/statement/modifiable/ModifiableStatement.java:335-338 | removing at an index leaves the list without that position |
| Modifiables.RemoveFirstOfDistinct | lib/src/sipka/syntax/parser/model/statement/modifiable/ModifiableStatement.java:291-297 | removing an object from a list without repetitions removes every trace of it and keeps every other member |
| Modifiables.WithChildren | lib/src/sipka/syntax/parser/model/statement/modifiable/ModifiableStatement.java:123-128 | replacing a child list keeps every object's name and value and gives the object exactly the new list |
| Modifiables.WithChildrenTwice | lib/src/sipka/syntax/parser/model/statement/modifiable/ModifiableStatement.java:354-361 | setting a child list twice is the same as setting the second one |
| Modifiables.FirstIndexNamed | lib/src/sipka/syntax/parser/model/statement/modifiable/ModifiableStatement.java:344-352 | the index of the first child with a name, or -1 exactly when no child has it |
| Modifiables.FirstNamed | lib/src/sipka/syntax/parser/model/statement/modifiable/ModifiableStatement.java:242-248 | the first object of a list with the name, or none exactly when no object of it has the name |
| Modifiables.FirstNamedConcat | lib/src/sipka/syntax/parser/model/statement/modifiable/ModifiableStatement.java:229-240 | the first named object of two lists one after the other is the first of the first list, or else the first of the second |
| Modifiables.NamedIn | lib/src/sipka/syntax/parser/model/statement/modifiable/ModifiableStatement.java:258-265 | the objects kept are exactly the list's objects with the name |
| Modifiables.UnnamedIn | lib/src/sipka/syntax/parser/model/statement/modifiable/ModifiableStatement.java:354-361 | the objects kept are exactly the list's objects without the name |
| Modifiables.WithoutFirstNamed | lib/src/sipka/syntax/parser/model/statement/modifiable/ModifiableStatement.java:344-352 | removing the first child with a name keeps only objects of the list |
| Modifiables.ParentNamed | lib/src/sipka/syntax/parser/model/statement/modifiable/ModifiableStatement.java:222-227 | the parent is returned exactly when there is one and it has the name |
| Modifiables.AncestorNamed | lib/src/sipka/syntax/parser/model/statement/modifiable/ModifiableStatement.java:267-274 | an ancestor found has the name; the only failure is a StackOverflowError, and only for an object with a parent |
| Modifiables.AncestorNamedOnChain | lib/src/sipka/syntax/parser/model/statement/modifiable/ModifiableStatement.java:267-274 | on a parent chain that ends (hasAncestorNamed/getAncestorNamed), the answer is the first object with the name walking up from the parent, with no overflow |
| Modifiables.AncestorNamedFuelIrrelevant | lib/src/sipka/syntax/parser/model/statement/modifiable/ModifiableStatement.java:267-274 | a deeper stack never changes an answer that was reached |
| Modifiables.SelfParentOverflows | lib/src/sipka/syntax/parser/model/statement/modifiable/ModifiableStatement.java:267-274 | an object that is its own parent (x.add(x)) and lacks the name overflows the stack however deep it may recurse |
| Modifiables.Descendants | lib/src/sipka/syntax/parser/model/statement/modifiable/ModifiableStatement.java:144-153 | the descendants of an object are its subtree in preorder without the object itself |
| Modifiables.ChildAt | lib/src/sipka/syntax/parser/model/statement/modifiable/ModifiableStatement.java:363-365 | reading a child succeeds exactly for an index within the child list |
| Modifiables.NextSibling | lib/src/sipka/syntax/parser/model/statement/modifiable/ModifiableStatement.java:371-384 | an object without parent has no next sibling; otherwise the result is the next child of the same parent, present exactly when the object is not the last |
| Modifiables.PreviousSibling | lib/src/sipka/syntax/parser/model/statement/modifiable/ModifiableStatement.java:375-391 | an object without parent has no previous sibling; otherwise the result is the previous child of the same parent, present exactly when the object is not the first |
| Modifiables.Forest.constructor | lib/src/sipka/syntax/parser/model/statement/modifiable/ModifiableStatement.java:25-35 | a new forest holds no objects |
| Modifiables.Forest.New | lib/src/sipka/syntax/parser/model/statement/modifiable/ModifiableStatement.java:53-57 | a new object gets a fresh identity and the name, value and parent given, with no children, and nothing else changes |
| Modifiables.Forest.SetName | lib/src/sipka/syntax/parser/model/statement/modifiable/ModifiableStatement.java:393-395 | only the object's name changes |
| Modifiables.Forest.SetValue | lib/src/sipka/syntax/parser/model/statement/modifiable/ModifiableStatement.java:397-399 | only the object's value changes |
| Modifiables.Forest.RemoveChild | lib/src/sipka/syntax/parser/model/statement/modifiable/ModifiableStatement.java:291-297 | the forest becomes the one RemovedChild describes, and the result says whether the object was a child |
| Modifiables.Forest.Add | lib/src/sipka/syntax/parser/model/statement/modifiable/ModifiableStatement.java:92-102 | the forest becomes the one Added describes: the object is detached from its old parent and appended to this one |
| Modifiables.Forest.AddAt | lib/src/sipka/syntax/parser/model/statement/modifiable/ModifiableStatement.java:104-113 | the forest becomes the one AddedAt describes, including the index error after the object was already detached |
| Modifiables.Forest.InsertAfter | lib/src/sipka/syntax/parser/model/statement/modifiable/ModifiableStatement.java:115-117 | the forest becomes the one the written insertAfter describes, which computes the index before detaching the object |
| Modifiables.Forest.InsertBefore | lib/src/sipka/syntax/parser/model/statement/modifiable/ModifiableStatement.java:119-121 | the forest becomes the one the written insertBefore describes, which computes the index before detaching the object |
| Modifiables.Forest.AddChildren | lib/src/sipka/syntax/parser/model/statement/modifiable/ModifiableStatement.java:123-128 | the forest becomes the one appending each listed object in turn describes |
| Modifiables.Forest.ReplaceChild | lib/src/sipka/syntax/parser/model/statement/modifiable/ModifiableStatement.java:299-309 | the forest becomes the one ReplacedChild describes, and the result says whether the old object was a child |
| Modifiables.Forest.RemoveChildAt | lib/src/sipka/syntax/parser/model/statement/modifiable/ModifiableStatement.java:335-338 | the forest becomes the one RemovedChildAt describes, or is unchanged with an index error |
| Modifiables.Forest.ReplaceChildAt | lib/src/sipka/syntax/parser/model/statement/modifiable/ModifiableStatement.java:340-342 | the forest becomes the one ReplacedChildAt describes, or an index error |
| Modifiables.Forest.SwapWith | lib/src/sipka/syntax/parser/model/statement/modifiable/ModifiableStatement.java:311-329 | the forest becomes the one the written swapWith describes |
| Modifiables.Forest.HasChildNamed | lib/src/sipka/syntax/parser/model/statement/modifiable/ModifiableStatement.java:130-136 | true exactly when some child has the name |
| Modifiables.Forest.GetChildNamed | lib/src/sipka/syntax/parser/model/statement/modifiable/ModifiableStatement.java:242-248 | the first child with the name, or none |
| Modifiables.Forest.GetChildValue | lib/src/sipka/syntax/parser/model/statement/modifiable/ModifiableStatement.java:250-256 | the value of the first child with the name, or none exactly when no child has it |
| Modifiables.Forest.GetChildrenNamed | lib/src/sipka/syntax/parser/model/statement/modifiable/ModifiableStatement.java:258-265 | exactly the children with the name, in order |
| Modifiables.Forest.HasSiblingNamed | lib/src/sipka/syntax/parser/model/statement/modifiable/ModifiableStatement.java:164-174 | true exactly when the object has a parent and another child of that parent has the name |
| Modifiables.Forest.GetSiblingNamed | lib/src/sipka/syntax/parser/model/statement/modifiable/ModifiableStatement.java:210-220 | the first other child of the parent with the name, or none exactly when there is no parent or no other child has it |
| Modifiables.Forest.HasDescendantNamed | lib/src/sipka/syntax/parser/model/statement/modifiable/ModifiableStatement.java:144-153 | true exactly when some object below this one has the name |
| Modifiables.Forest.GetDescendantNamed | lib/src/sipka/syntax/parser/model/statement/modifiable/ModifiableStatement.java:229-240 | the first object with the name in preorder below this one, each child's subtree searched before the next child |
| Modifiables.Forest.RemoveFirstChildWithName | lib/src/sipka/syntax/parser/model/statement/modifiable/ModifiableStatement.java:344-352 | the child list loses the first child with the name and nothing else changes |
| Modifiables.Forest.RemoveChildrenWithName | lib/src/sipka/syntax/parser/model/statement/modifiable/ModifiableStatement.java:354-361 | the child list keeps exactly the children without the name, in order, and nothing else changes |
| Modifiables.Forest.HasRelationNamed | lib/src/sipka/syntax/parser/model/statement/modifiable/ModifiableStatement.java:176-191 | the ancestor query answers what getAncestorNamed finds or overflows as it does; child, descendant, parent and sibling answer whether their lookup finds an object with the name and never fail; only the descendant search needs a finite tree |
| Modifiables.Forest.GetRelationNamed | lib/src/sipka/syntax/parser/model/statement/modifiable/ModifiableStatement.java:193-208 | the ancestor query returns getAncestorNamed's result or overflow; child, descendant, parent and sibling return their lookup's match and never fail; only the descendant search needs a finite tree |
| ModifiableLaws.DetachedConsistent | lib/src/sipka/syntax/parser/model/statement/modifiable/ModifiableStatement.java:92-102 | detaching an object from its parent keeps every parent link and child list in agreement |
| ModifiableLaws.DetachedUnlisted | lib/src/sipka/syntax/parser/model/statement/modifiable/ModifiableStatement.java:92-102 | a detached object has no parent and is no object's child |
| ModifiableLaws.DetachedFrame | lib/src/sipka/syntax/parser/model/statement/modifiable/ModifiableStatement.java:92-102 | detaching changes no other object's parent, no other membership and no name or value |
| ModifiableLaws.AddedConsistent | lib/src/sipka/syntax/parser/model/statement/modifiable/ModifiableStatement.java:92-102 | adding an object keeps the links in agreement, makes this object its parent and puts it last in the child list |
| ModifiableLaws.AddedFrame | lib/src/sipka/syntax/parser/model/statement/modifiable/ModifiableStatement.java:92-102 | adding an object changes no other object's parent or membership |
| ModifiableLaws.AddedLists | lib/src/sipka/syntax/parser/model/statement/modifiable/ModifiableStatement.java:92-102 | after add the child list is the list without the object followed by the object, and the other lists are those after detaching |
| ModifiableLaws.AddedAtConsistent | lib/src/sipka/syntax/parser/model/statement/modifiable/ModifiableStatement.java:104-113 | inserting at an index succeeds exactly when the index fits the list without the object, then places it there with links in agreement; otherwise the index error leaves the object claiming a parent that does not list it |
| ModifiableLaws.RemovedChildConsistent | lib/src/sipka/syntax/parser/model/statement/modifiable/ModifiableStatement.java:291-297 | removing a child reports whether it was one; a removed object has no parent and is no longer listed, and a non-child leaves the forest unchanged |
| ModifiableLaws.RemovedChildAtConsistent | lib/src/sipka/syntax/parser/model/statement/modifiable/ModifiableStatement.java:335-338 | removing at an index succeeds exactly for an index within the list, detaching that child and shortening the list by one; an index error changes nothing |
| ModifiableLaws.ReplacedChildConsistent | lib/src/sipka/syntax/parser/model/statement/modifiable/ModifiableStatement.java:299-309 | replacing a child by an object without parent puts it at the old child's position, sets its parent and frees the old child |
| ModifiableLaws.ReplacedShape | lib/src/sipka/syntax/parser/model/statement/modifiable/ModifiableStatement.java:299-309 | the new child list is the old one with the replaced position overwritten, other lists and parents stay as they were |
| ModifiableLaws.ReplacedChildStale | lib/src/sipka/syntax/parser/model/statement/modifiable/ModifiableStatement.java:299-309 | replacing with an object that still has another parent leaves it listed by both parents, so the links disagree |
| ModifiableLaws.RemovedNamedStale | lib/src/sipka/syntax/parser/model/statement/modifiable/ModifiableStatement.java:344-361 | the removal of children by name leaves the removed children still naming the object as their parent |
| ModifiableLaws.NamedPartition | lib/src/sipka/syntax/parser/model/statement/modifiable/ModifiableStatement.java:258-265 | the children with a name and those without it together are the child list, as a multiset |
| ModifiableLaws.NextThenPrevious | lib/src/sipka/syntax/parser/model/statement/modifiable/ModifiableStatement.java:379-391 | the previous sibling of the next sibling is the object itself |
| ModifiableLaws.PreviousThenNext | lib/src/sipka/syntax/parser/model/statement/modifiable/ModifiableStatement.java:379-391 | the next sibling of the previous sibling is the object itself |
| ModifiableLaws.InsertedBeforePlaces | lib/src/sipka/syntax/parser/model/statement/modifiable/ModifiableStatement.java:119-121 | the intended insertBefore puts the object directly before the child, with links in agreement |
| ModifiableLaws.InsertedAfterPlaces | lib/src/sipka/syntax/parser/model/statement/modifiable/ModifiableStatement.java:115-117 | the intended insertAfter puts the object directly after the child, with links in agreement |
| ModifiableLaws.InsertedBeforeAsWrittenMisplaces | lib/src/sipka/syntax/parser/model/statement/modifiable/ModifiableStatement.java:119-121 | moving the earlier sibling a before its later sibling b with the written insertBefore yields the order b, a |
| ModifiableLaws.InsertedAfterAsWrittenFails | lib/src/sipka/syntax/parser/model/statement/modifiable/ModifiableStatement.java:115-117 | moving the earlier sibling a after the last sibling b with the written insertAfter fails with an index error |
| ModifiableLaws.SwappedAsWrittenKeepsSiblings | lib/src/sipka/syntax/parser/model/statement/modifiable/ModifiableStatement.java:311-329 | the written swapWith on two siblings leaves their order unchanged |
| ModifiableLaws.SwappedTrades | lib/src/sipka/syntax/parser/model/statement/modifiable/ModifiableStatement.java:311-329 | the intended swap of two objects with parents puts each at the other's position under the other's parent, with links in agreement |
| ModifiableLaws.SwappedFrame | lib/src/sipka/syntax/parser/model/statement/modifiable/ModifiableStatement.java:311-329 | the swap changes no child list but the two parents' |
| ModifiableLaws.SwappedParents | lib/src/sipka/syntax/parser/model/statement/modifiable/ModifiableStatement.java:311-329 | the swap exchanges the two objects' parents and changes no other parent |
| ModifiableLaws.SwappedWithFree | lib/src/sipka/syntax/parser/model/statement/modifiable/ModifiableStatement.java:311-329 | swapping an object without parent with a child puts the free object at the child's position and frees the child |
| ModifiableLaws.AddedAllConsistent | lib/src/sipka/syntax/parser/model/statement/modifiable/ModifiableStatement.java:123-128 | adding a list of objects keeps links in agreement and leaves each added object a child of this one |
| ModifiableLaws.AddedAllKeeps | lib/src/sipka/syntax/parser/model/statement/modifiable/ModifiableStatement.java:123-128 | adding a list of objects keeps every earlier child a child |
| ModifiableTrees.Image | lib/src/sipka/syntax/parser/model/statement/modifiable/ModifiableStatement.java:37-43 | the tree built for a statement has the given name and value and one subtree per scope |
| ModifiableTrees.Images | lib/src/sipka/syntax/parser/model/statement/modifiable/ModifiableStatement.java:59-64 | the trees built for the scopes come in order, one per scope and each named after its scope, unless a scope fails |
| ModifiableTrees.Built | lib/src/sipka/syntax/parser/model/statement/modifiable/ModifiableStatement.java:45-51 | the tree built for a scope carries the scope's name |
| ModifiableTrees.ImagesStep | lib/src/sipka/syntax/parser/model/statement/modifiable/ModifiableStatement.java:59-64 | one more scope appends its tree, and a failure so far stays the result |
| ModifiableTrees.ImagesFail | lib/src/sipka/syntax/parser/model/statement/modifiable/ModifiableStatement.java:59-64 | the first failing scope decides the result for all the scopes |
| ModifiableTrees.MirrorsFrame | lib/src/sipka/syntax/parser/model/statement/modifiable/ModifiableStatement.java:45-51 | objects that mirror a tree keep doing so while the objects in their range stay untouched |
| ModifiableParsing.Parse | lib/src/sipka/syntax/parser/model/statement/modifiable/ModifiableStatement.java:28-43 | parsing creates fresh objects forming exactly the tree of the root over the statement's scopes, with no parent, or reports the error the tree function reports; older objects are untouched |
| ModifiableParsing.Construct | lib/src/sipka/syntax/parser/model/statement/modifiable/ModifiableStatement.java:45-51 | constructing for a scope creates fresh objects forming the scope's tree under the given parent, or the tree function's error; older objects are untouched |
| ModifiableParsing.AddChildren | lib/src/sipka/syntax/parser/model/statement/modifiable/ModifiableStatement.java:59-64 | the children created for the statement's scopes mirror the scope trees in order, or the error of the first failing scope |
| ModifiableParsing.AppendChild | lib/src/sipka/syntax/parser/model/statement/modifiable/ModifiableStatement.java:59-64 | one more child appended keeps the child list mirroring the trees so far plus the new scope's tree |
| ModifiableWalkers.Walker.constructor | lib/src/sipka/syntax/parser/model/statement/modifiable/ModifiableStatementTreeWalker.java:28-31 | a new walker has emitted nothing and will emit the root first |
| ModifiableWalkers.Walker.Reset | lib/src/sipka/syntax/parser/model/statement/modifiable/ModifiableStatementTreeWalker.java:56-60 | resetting starts the walk over from the root |
| ModifiableWalkers.Walker.HasNext | lib/src/sipka/syntax/parser/model/statement/modifiable/ModifiableStatementTreeWalker.java:33-36 | true exactly while objects remain, and false exactly when the whole preorder of the tree under the root has been emitted |
| ModifiableWalkers.Walker.Next | lib/src/sipka/syntax/parser/model/statement/modifiable/ModifiableStatementTreeWalker.java:38-54 | the object emitted is the next one pending in preorder; at the end nothing is emitted |
| ModifiableWalkers.Walker.Advance | lib/src/sipka/syntax/parser/model/statement/modifiable/ModifiableStatementTreeWalker.java:46-51 | the next object is the first of what the iterators have left, and the rest is what remains |
| ModifiableWalkers.Walker.DropExhausted | lib/src/sipka/syntax/parser/model/statement/modifiable/ModifiableStatementTreeWalker.java:43-45 | dropping finished iterators keeps what is left to walk |
| ModifiableWalkers.RestPush | lib/src/sipka/syntax/parser/model/statement/modifiable/ModifiableStatementTreeWalker.java:49-50 | taking a child from the top iterator and pushing an iterator over its children leaves the same objects to walk after that child |
| ModifiableWalkers.Walk | lib/src/sipka/syntax/parser/model/statement/modifiable/ModifiableStatementTreeWalker.java:22-60 | walking to the end yields the tree under the root in preorder |
| JavaGenerator.HexDigit | lib/src/sipka/syntax/parser/util/RuleJavaGenerator.java:246 | a digit below sixteen prints as a lower-case hexadecimal character that reads back as the same digit |
| JavaGenerator.HexValue | lib/src/sipka/syntax/parser/util/RuleJavaGenerator.java:246 | a character has a hexadecimal value exactly when it is a decimal digit or a letter a to f in either case, and the value is below sixteen |
| JavaGenerator.Hex4 | lib/src/sipka/syntax/parser/util/RuleJavaGenerator.java:246 | a character unit prints as four lower-case hexadecimal digits that read back as the unit |
| JavaGenerator.Escaped | lib/src/sipka/syntax/parser/util/RuleJavaGenerator.java:209-246 | each escape is printable ASCII; it is the character itself exactly for printable characters other than the quotes and the backslash |
| JavaGenerator.EscapedAll | lib/src/sipka/syntax/parser/util/RuleJavaGenerator.java:200-207 | the escaped text of a string holds only printable ASCII |
| JavaGenerator.EscapedAllSnoc | lib/src/sipka/syntax/parser/util/RuleJavaGenerator.java:203-205 | escaping a longer string appends the new character's escape |
| JavaGenerator.AppendConstantExpression | lib/src/sipka/syntax/parser/util/RuleJavaGenerator.java:200-207 | the buffer gets the string's escapes between double quotes appended |
| JavaGenerator.GetConstantExpression | lib/src/sipka/syntax/parser/util/RuleJavaGenerator.java:193-198 | the literal reads back as the original string and holds only printable ASCII |
| JavaGenerator.UnescapeEscaped | lib/src/sipka/syntax/parser/util/RuleJavaGenerator.java:209-246 | reading an escape followed by more text yields its character and then what the rest yields |
| JavaGenerator.UnescapeEscapedAll | lib/src/sipka/syntax/parser/util/RuleJavaGenerator.java:200-246 | reading the escaped text of a string yields the string |
| JavaGenerator.LiteralRoundTrip | lib/src/sipka/syntax/parser/util/RuleJavaGenerator.java:193-246 | reading the quoted literal of a string yields the string |
| JavaGenerator.LastIndexOf | lib/src/sipka/syntax/parser/util/RuleJavaGenerator.java:102 | the last position of the character, or -1 when it does not occur |
| JavaGenerator.SplitClassName | lib/src/sipka/syntax/parser/util/RuleJavaGenerator.java:101-116 | the simple name holds no dot; there is no package exactly when the name has no dot, and otherwise package, dot and simple name give back the class name |

## Left out

- OccurrenceText.ParseInt: reads ASCII digits only; Integer.parseInt also accepts the other Unicode decimal digits, which occurrence texts in grammars do not use.
- Values.ValueConsumer.SetLength: requires `0 <= len <= count`, where ValueConsumer.java:76-78 takes any int; every caller passes a length it saved from the same consumer earlier, and the model of those callers proves they meet it.
- Java `int` overflow is not modelled: `count + added` in the value consumer, `Integer.MAX_VALUE - count` in the safe-add counts and the region arithmetic of DocumentRegion and repair use unbounded integers; the limits the source tests explicitly (MAX_VALUE in acceptsMore) are kept.
- Aliasing of character arrays: an ArrayRangeCharSequence, the document array and a parsed value are modelled as values, so the sharing of one `char[]` between the document, its views and the values cut from it is not represented; nothing in the core writes into an array once a view of it exists.
- Containers.Oracle: a child rule's parseStatement or repairStatement, as seen from a container loop, returns a result and a length and cannot throw, so an exception raised inside a child does not propagate through InOrder.InOrderParse, FirstOrder.FirstOrderParse, AnyOrder.AnyOrderParse or their repairs; what a child appends to the value consumer is modelled through the hooks and the rollback, not derived from the child's own body.
- Rule bodies are parameters: a rule's parseStatementImpl, the regular-expression matcher of ConsumeRule (the indexes it reads, the match bounds and hitEnd), the invoked rule of InvokeRule and the root rule that repair re-runs are functions given to the model, so their own behaviour is not modelled here.
- StatementRepair.Repair: the ParseContext argument of repair is not modelled, and the clone of the statement and information trees is implicit, since the model works on values; the diagnostics of the failed re-parse are not produced.
- Contexts.Follow and the other fuel-bounded recursions: the unbounded recursion of VarReferenceParam.getValue ends in a StackOverflowError in Java; the model bounds it by fuel and reports StackOverflow when it runs out, and FollowFuelIrrelevant shows the fuel does not change an answer that was reached.
- AnyOrder.RepairChildren and InOrderRepair.RepairChildren: the previous information is taken as any collection information (`Listing`), and ValueRules and InvokeRules check only that it wraps one child; the Java code casts it to the rule's own ParsingInformation subclass and throws ClassCastException otherwise, which information produced by the same rule never triggers.
- FirstOrder: each alternative starts from a counter reset to the alternative's occurrence; the Java code reuses one counter object and resets it, which is the same sequence of counts.
- ModifiableStatement is represented as an arena: objects are node numbers in a map from node to fields, so Java's object references become those numbers and an edit is a function from the map before to the map after.
- TreeRelation.java is not part of this model; its five relations (ancestor, child, descendant, parent, sibling) are a datatype.
- Modifiables.Forest.HasDescendantNamed, GetDescendantNamed (and the descendant case of HasRelationNamed and GetRelationNamed) and the walker require the tree to be finite and acyclic (a rank decreasing from parent to child). The edits can make cycles: add, add(int), insertBefore and insertAfter accept an object under itself or under one of its descendants (x.add(x) makes x its own parent). On such a forest the Java descendant search recurses until a StackOverflowError and the walker never ends; the model does not describe those runs. The ancestor walk is modelled on every forest, with its StackOverflowError (Modifiables.AncestorNamed).
- Modifiables.Forest.HasRelationNamed and Modifiables.Forest.GetRelationNamed: the descendant relation requires a ranked (acyclic) forest, as HasDescendantNamed does; the other four relations take any forest.
- ModifiableWalkers.Walker: walks a tree that does not change while it is walked; the effect of edits during iteration on Java's list iterators (ConcurrentModificationException) is not modelled.
- ModifiableStatement.getChildren (the live list it hands out), printHierarchy, prettyprint and toString are not modelled: they are aliasing and printing.
- ModifiableParsing.Parse: after a failure the objects already created are left in the forest unspecified, as the Java code leaves them unreachable.
- RuleJavaGenerator: only the string escaping, the literal and the package split are modelled; generateLanguageJavaSourceMethodBody, the visitors and the variable cache produce Java source text from a whole grammar and are left out, as is appendStringLiteral's null case.
- JavaGenerator.Unescape: the reader used to state the round trip reads only the escapes the generator writes; it does not read octal escapes or `\u` with repeated `u`.
- ModifiableLaws.SwappedTrades and SwappedWithFree: the intended swap is proved for two parented objects and for a free object with a parented one; swapping two free objects changes nothing in either version.
- Cancellation: the progress monitor is modelled as the cancellation flag of ParseHelper, read where Rule.parseStatement reads it; the monitor object itself and the threads that set it are not modelled.

## Findings

Each row names a member that follows the code as written, with a lemma that exhibits the input, and the corrected member with the intended property proved. The repair bookkeeping (StatementRepair.ShiftRegion and everything built on it) follows applyRegionInsert as written, so that the regions the model computes are the ones the program computes; the intended rule is stated and proved alongside it.

| source | as written | input that shows it | evidently intended | confidence | as-written member | corrected member |
|---|---|---|---|---|---|---|
| src/sipka/syntax/parser/util/ArrayRangeCharSequence.java:77-83 | subSequence checks each bound against the length but not that start <= end | subSequence(3, 1) of "abcde" returns a view of length -2, which cannot be turned into a string | a reversed range throws IndexOutOfBoundsException, as the CharSequence contract says | not executed | CharSequences.SubSequenceAsWrittenAcceptsReversedRange | CharSequences.SubSequence |
| src/sipka/syntax/parser/util/OffsetCharSequence.java:43-49 | subSequence checks each bound against the length but not that start <= end | subSequence(3, 1) of a view of "abcde" returns a view of length -2 | a reversed range throws IndexOutOfBoundsException | not executed | CharSequences.OffsetSubSequenceAsWrittenAcceptsReversedRange | CharSequences.OffsetSubSequence |
| src/sipka/syntax/parser/model/parse/document/DocumentRegion.java:120-125 | isOverlapping tests whether the region contains its own offset instead of the other region's | [0,1) and [10,11) are reported as overlapping | the regions overlap exactly when they share an offset | not executed | Regions.IsOverlappingAsWrittenCounterexample | Regions.IsOverlappingMeansCommonOffset |
| lib/src/sipka/syntax/parser/model/statement/Statement.java:250-260 | an insertion strictly inside a region grows it only by the part of the inserted text that overlaps the old region | inserting 5 characters at 8 into [0,10) gives [0,12), so the region's own last character, now at 14, falls outside it | the region grows by the whole inserted length, [0,15) | not executed | StatementRepair.InsertAsWrittenLosesCharacters | StatementRepair.InsertKeepsExactlyItsCharacters |
| lib/src/sipka/syntax/parser/model/statement/modifiable/ModifiableStatement.java:119-121 | insertBefore computes the child's index before add detaches the inserted object from the same list | with children [a, b], insertBefore(b, a) gives [b, a] | the object ends directly before the child: [a, b] | not executed | ModifiableLaws.InsertedBeforeAsWrittenMisplaces | ModifiableLaws.InsertedBeforePlaces |
| lib/src/sipka/syntax/parser/model/statement/modifiable/ModifiableStatement.java:115-117 | insertAfter computes the child's index before add detaches the inserted object from the same list | with children [a, b], insertAfter(b, a) asks for index 2 of the one-entry list [b] and throws IndexOutOfBoundsException | the object ends directly after the child: [b, a] | not executed | ModifiableLaws.InsertedAfterAsWrittenFails | ModifiableLaws.InsertedAfterPlaces |
| lib/src/sipka/syntax/parser/model/statement/modifiable/ModifiableStatement.java:311-329 | swapWith overwrites the first position and then searches for the target in the updated list, finding the entry it just wrote | with children [a, b], a.swapWith(b) leaves [a, b] | the two exchange places: [b, a] | not executed | ModifiableLaws.SwappedAsWrittenKeepsSiblings | ModifiableLaws.SwappedTrades |
