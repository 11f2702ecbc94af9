# Bookmark manager: a Dafny model of the bookmark list

The application keeps a list of book bookmarks in one React component,
`BookmarkManager` (`app/page.tsx`). A book has an id, a title, an author, a
description, a link and a list of tags, plus the time it was added. The
user can add a book through a form, delete a book, search the list, and open
a book's link. A link counts as a local file unless it starts with an
`http://`, `https://` or `ftp://` scheme.

This project models that logic and proves what it guarantees:

- `text.dfy`, module `AsciiText`: the string operations the component calls
  (`trim`, `toLowerCase`, `startsWith`, `includes`), over ASCII. The
  component never calls `toUpperCase`; `ToUpper` is there only to state that
  the case of the search term does not matter.
- `sequences.dfy`, module `Sequences`: `Array.prototype.filter`. Its lemmas
  show that the result keeps exactly the accepted elements, each as often as
  before and in their original order.
- `tags.dfy`, module `TagParsing`: `split(",")`, then `trim` on each piece,
  then dropping the empty pieces. `Split` is proved inverse to `Join` in both
  directions.
- `links.dfy`, module `LinkKinds`: `isLocalFile`, the "Local File"/"Online"
  badge, and the branch `handleOpenBook` takes.
- `bookmarks.dfy`, module `Bookmarks`: the `Book` record, delete by id, the
  search filter, and the component state as the class `BookmarkManager`.
  `HandleSubmit`, `HandleDelete` and the input handlers each replace a whole
  field of that state, as React's `setState` calls do. `Valid()` is the
  class invariant: every stored book was built by a successful add. The
  constructor establishes it, and every handler and input setter requires
  and preserves it.
  `AddAddDeleteScenario` is a client of the class: it adds A, adds B, sees
  `[B, A]`, deletes A and sees `[B]`.

The `Book` interface does not promise unique ids. The code takes them from
`Date.now()` and never checks them. So no lemma assumes unique ids except
where a property needs it, and there uniqueness is a precondition
(`RemovePresentIdShrinksByOne`, `RemoveUndoesPrepend`).

## Model

| member | source | states |
|---|---|---|
| `AsciiText.ToLower` | app/page.tsx:149-151 | keeps the length, maps each upper-case letter `A`-`Z` to its lower-case letter (code point + 32), and keeps every other character |
| `AsciiText.ToUpper` | app/page.tsx:149-151 | maps each lower-case letter `a`-`z` to its upper-case letter (code point - 32) and keeps every other character; not called by the component, used to state that the case of the search term does not matter |
| `AsciiText.ToLowerIdempotent` | app/page.tsx:149-151 | lower-casing twice equals lower-casing once |
| `AsciiText.ToLowerOfToUpper` | app/page.tsx:149-151 | lower-casing an upper-cased text equals lower-casing the text itself |
| `AsciiText.StartsWith` | app/page.tsx:157-159 | `startsWith(prefix)` holds exactly when the text is at least as long as `prefix` and agrees with it character by character |
| `AsciiText.Includes` | app/page.tsx:149-151 | `includes(sub)`, tried at each start position: it fails when `sub` is longer than the text and holds when `sub` is empty |
| `AsciiText.IncludesIffOccurs` | app/page.tsx:149-151 | `includes(sub)` holds exactly when `sub` occurs at some position of the text |
| `AsciiText.IncludesEmpty` | app/page.tsx:149-151 | every text includes the empty string |
| `AsciiText.Trim` | app/page.tsx:79 | the result neither starts nor ends with whitespace, is empty exactly when the input is all whitespace, and takes its characters from the input |
| `AsciiText.TrimIsMiddlePiece` | app/page.tsx:79 | the result is the piece of the input between a run of leading and a run of trailing whitespace |
| `AsciiText.TrimKeepsTrimmed` | app/page.tsx:79 | text with no whitespace at either end is left unchanged |
| `AsciiText.TrimDropsLeading` | app/page.tsx:79 | a leading whitespace character does not change the result |
| `AsciiText.TrimIdempotent` | app/page.tsx:79 | trimming twice equals trimming once |
| `Sequences.Filter` | app/page.tsx:80 | the result is no longer than the input, and each of its elements is accepted and comes from the input |
| `Sequences.FilterIsSubsequence` | app/page.tsx:80 | the result is an order-preserving subsequence of the input |
| `Sequences.FilterMembership` | app/page.tsx:80 | an element is in the result exactly when it is in the input and accepted |
| `Sequences.FilterCount` | app/page.tsx:80 | an accepted element occurs as often as in the input; a rejected one does not occur |
| `Sequences.FilterAllAccepted` | app/page.tsx:80 | when every element is accepted, the result equals the input |
| `Sequences.FilterIdempotent` | app/page.tsx:80 | filtering twice with the same predicate equals filtering once |
| `Sequences.FilterCongruent` | app/page.tsx:147-152 | predicates that agree on the elements give the same result |
| `Sequences.FilterSkipsRejectedHead` | app/page.tsx:96 | a rejected first element is dropped and the rest is filtered as before |
| `TagParsing.Split` | app/page.tsx:78 | `split` on one character gives one piece more than there are separators, and no piece contains the separator (`""` gives `[""]`) |
| `TagParsing.JoinSplit` | app/page.tsx:78 | joining the pieces with the separator gives back the input |
| `TagParsing.SplitJoin` | app/page.tsx:78 | splitting separator-free pieces joined by the separator gives back the pieces |
| `TagParsing.Segments` | app/page.tsx:77-79 | the trimmed pieces number one more than the commas |
| `TagParsing.ParseTags` | app/page.tsx:77-80 | every tag is non-empty, has no whitespace at either end and contains no comma; there are at most (commas + 1) tags |
| `TagParsing.ParseTagsFollowsSegments` | app/page.tsx:77-80 | the tags are an order-preserving subsequence of the trimmed segments; a trimmed segment is a tag exactly when it is non-empty; a non-empty tag occurs as often as its segment, so duplicates are kept |
| `TagParsing.ParseTagsOfEmpty` | app/page.tsx:77-80 | an empty tag field gives no tags |
| `TagParsing.ParseTagsExample` | app/page.tsx:77-80 | `"fiction, sci-fi, , favorite"` gives `["fiction", "sci-fi", "favorite"]` |
| `LinkKinds.MatchesPathPattern` | app/page.tsx:156 | a link matching the pattern starts with `/`, `~` or `.`, or with an ASCII letter followed by `:` |
| `LinkKinds.LocalFormsHaveNoScheme` | app/page.tsx:154-160 | a link that matches the path pattern or starts with `file://` never starts with `http://`, `https://` or `ftp://` |
| `LinkKinds.IsLocalFile` | app/page.tsx:154-160 | `isLocalFile(link)` holds exactly when the link does not start with `http://`, `https://` or `ftp://`; the drive-letter, path-prefix and `file://` tests add nothing |
| `LinkKinds.ClassificationExamples` | app/page.tsx:154-159 | `https://example.com/b.pdf` is remote; `C:\Books\b.pdf`, `/home/u/b.pdf`, `file://x`, `relative/path.pdf` and `HTTP://x` are local |
| `LinkKinds.BadgeFor` | app/page.tsx:323-333 | the card shows "Local File" exactly when the link has no remote scheme |
| `LinkKinds.OpenBook` | app/page.tsx:104-137 | opening takes the show-and-copy branch exactly when the link has no remote scheme; either branch acts on the link itself |
| `LinkKinds.OpenAgreesWithBadge` | app/page.tsx:107-112 | the branch `handleOpenBook` takes always matches the badge on the card |
| `Bookmarks.HasRequiredFields` | app/page.tsx:62 | the submit check passes only when title, author and link are non-empty strings; the cleared form never passes |
| `Bookmarks.WithField` | app/page.tsx:196-241 | an input's change sets its own form field and keeps the other four |
| `Bookmarks.NewBook` | app/page.tsx:71-82 | the new record copies title, author, description and link from the form, takes the given id and timestamp and the parsed tags, and satisfies the record invariant |
| `Bookmarks.RemoveById` | app/page.tsx:94-96 | no remaining book has the id, every remaining book comes from the list, and the list does not grow |
| `Bookmarks.RemoveByIdKeepsOthers` | app/page.tsx:96 | deleting keeps every book with another id, as often as before, in its original relative order |
| `Bookmarks.RemoveAbsentId` | app/page.tsx:96 | deleting an id that no book has changes nothing |
| `Bookmarks.RemoveByIdIdempotent` | app/page.tsx:96 | deleting the same id twice equals deleting it once |
| `Bookmarks.RemovePresentIdShrinksByOne` | app/page.tsx:96 | with unique ids, deleting a present id removes exactly one book |
| `Bookmarks.RemoveUndoesPrepend` | app/page.tsx:84-96 | deleting the id of a book just added, if no other book has it, restores the list as it was before the add |
| `Bookmarks.Matches` | app/page.tsx:148-151 | an empty term matches every book; a matching term is no longer than the title, the author or some tag |
| `Bookmarks.MatchesIffSubstring` | app/page.tsx:147-152 | a book matches exactly when the lower-cased term is a substring of the lower-cased title, author or some tag |
| `Bookmarks.Search` | app/page.tsx:147-152 | the result holds only matching books taken from the list, and is no longer than the list |
| `Bookmarks.SearchIsFaithfulFilter` | app/page.tsx:147-152 | the result is an order-preserving subsequence of the list; a book is in it exactly when it is in the list and matches; a matching book keeps its multiplicity |
| `Bookmarks.SearchEmptyTermKeepsAll` | app/page.tsx:147-152 | an empty search term returns every book |
| `Bookmarks.SearchIgnoresCaseOfTerm` | app/page.tsx:149-151 | searching for a term, its lower-case form or its upper-case form gives the same result |
| `Bookmarks.SearchFindsTagInAnyCase` | app/page.tsx:151 | a book tagged `sci-fi` is found by `sci-fi` and by `SCI-FI` |
| `Bookmarks.BookmarkManager.constructor` | app/page.tsx:34-43 | the initial state: no books, empty search term, dialog closed, all five form fields empty |
| `Bookmarks.BookmarkManager.FilteredBooks` | app/page.tsx:147-152 | the shown books are matching books from the list, no more than the list, and the whole list when the search term is empty |
| `Bookmarks.BookmarkManager.HandleSubmit` | app/page.tsx:59-92 | if the title, author or link string is empty, nothing changes. Otherwise the new book is put in front of the old list, the form is cleared and the dialog is closed. The search term is never touched, and the invariant is kept |
| `Bookmarks.BookmarkManager.HandleDelete` | app/page.tsx:94-96 | the list becomes the filtered list, everything else stays, and the invariant is kept |
| `Bookmarks.BookmarkManager.SetFormField` | app/page.tsx:196-241 | only the named form field changes, and the invariant is kept |
| `Bookmarks.BookmarkManager.SetSearchTerm` | app/page.tsx:263 | only the search term changes, and the invariant is kept |
| `Bookmarks.BookmarkManager.SetDialogOpen` | app/page.tsx:175 | only the dialog flag changes, and the invariant is kept |

## Left out

- Toast notifications are side effects into a UI library and are not modelled. This includes the `undefined` title shown when a missing id is deleted. `HandleSubmit`'s `added` result only says which branch ran.
- `handleDelete` looks the book up with `books.find` only to name it in a toast, so that lookup is not modelled.
- Loading from and saving to `localStorage` is browser I/O, and so are `JSON.parse` and `JSON.stringify`; none of them is modelled. `Valid()` therefore says nothing about a list read back from storage, which the source does not check.
- The clipboard write and `window.open` are asynchronous platform calls. `OpenBook` returns which of the two actions would run, and on what text.
- `handleOpenBook`'s `title` parameter is unused in the source and is dropped. Its `try`/`catch` guards nothing that the modelled logic can raise.
- `Date.now()` ids and ISO timestamps come from the clock, so `HandleSubmit` takes them as parameters.
- The JSX layout, the dialog and the icons are UI only. The same goes for the empty-list messages, the card rendering and the button wiring. Only the state-changing handlers they call are modelled.
- `AsciiText.Trim`: strips only the six ASCII whitespace characters (space, tab, line feed, vertical tab, form feed, carriage return). JavaScript also strips Unicode spaces and line separators.
- `AsciiText.ToLower`: maps only `A`-`Z`. JavaScript's `toLowerCase` also folds non-ASCII letters. `AsciiText.ToUpper` is limited the same way.
