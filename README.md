# Contact book: the record-management core

This project models the contact book desktop application's record logic. It covers the ordered list of contacts in the data file, each with name, phone, email and address. It covers the five operations behind the buttons: add, show all, delete, update and search. It also covers the text the list box shows for each contact, `name - phone`, and how delete and update get a name back from a selected row.

Modules:

- `Wrappers`: `Option`, used for a dialog the user can cancel and for a search that finds nothing.
- `Text`: the parts of Python's string library that the code uses. These are `strip()`, `lower()`, the substring test `t in s` and `split(sep)[0]`. The code does not call `find`; `Text.Find` is the search that `split` relies on to find its first cut.
- `Sequences`: order-preserving filtering, which is the shape of a list comprehension. It also proves that the filter's properties determine its result.
- `ContactBook`: the `Contact` record, row text and key recovery, and the pure definitions of add, delete, edit and search. It also has the class `ContactStore`. That class's `contacts` field stands for the data file, and its methods do what the buttons do.

The store's methods take the text in the entry fields, the selected row (`None` when nothing is selected) and the dialog answers (`None` when a dialog is cancelled) as parameters. Each method returns a `Notice` for the message box it would show. `Add`, `Delete` and `Edit` change `contacts` the same way the code changes the loaded list before writing it back.

The label round trip has an exact condition, proved as an if-and-only-if. A contact's name comes back from its row exactly when `" - "` does not occur in the name followed by `" -"`. Two kinds of name fail. One contains `" - "`, like `A - B`. The other ends in `" -"`, like `A -`. The row `A - - 1` is cut at its first `" - "`, at index 1. So selecting the row of a contact named `A -` and pressing Delete removes every contact named `A` and keeps `A -`. `ContactBook.DeleteOwnRow` states this.

## Model

| member | source | states |
|---|---|---|
| `ContactBook.ContactStore.constructor` | contact_book_app.py:12-16 | a missing data file opens as the empty list; an existing one opens as its stored records |
| `Text.LeadingSpace` | contact_book_app.py:25-28 | the count of characters `strip()` drops at the front: all of them are whitespace, and the next character, if any, is not |
| `Text.TrailingSpace` | contact_book_app.py:25-28 | the count of characters `strip()` drops at the back: all of them are whitespace, and the character before them, if any, is not |
| `Text.Strip` | contact_book_app.py:25-28 | the result is the contiguous piece of the input that follows its leading whitespace, with only whitespace after it; it is empty exactly when the input is all whitespace, and otherwise starts and ends with non-whitespace |
| `ContactBook.Inserted` | contact_book_app.py:23-37 | if the name or phone is all whitespace, the list is unchanged; otherwise the old list gains exactly one record at the end, holding the four stripped values; every record added has a non-empty name and phone |
| `ContactBook.ContactStore.Add` | contact_book_app.py:23-40 | the list becomes `Inserted` of the old list; the user is told "missing info" when the name or phone is blank, and otherwise that the stripped name was added |
| `ContactBook.Label` | contact_book_app.py:46 | a row is the name, then `" - "`, then the phone, and nothing else |
| `ContactBook.Labels` | contact_book_app.py:102 | one row per record, in the records' order, each the record's `Label` |
| `ContactBook.ContactStore.ShowAll` | contact_book_app.py:42-46 | one row per stored record, in stored order, each row being `name - phone` |
| `Text.Find` | contact_book_app.py:54 | no index exactly when the separator does not occur; otherwise the index of an occurrence with none before it |
| `Text.SplitFirst` | contact_book_app.py:68 | the result is the prefix of the text that ends where the first separator starts: no separator starts inside it, one starts right after it when the text contains one, and it is the whole text otherwise |
| `ContactBook.KeyOfLabel` | contact_book_app.py:54 | the key taken from a row is the row's text up to its first `" - "`, or the whole row when there is none |
| `ContactBook.LabelRoundTrip` | contact_book_app.py:54 | the name taken from a contact's row equals its name if and only if `" - "` does not occur in the name followed by `" -"` |
| `ContactBook.LabelRoundTripPlainName` | contact_book_app.py:68 | a name with no `" - "` in it and no `" -"` at its end is recovered from its row |
| `ContactBook.LabelRoundTripCounterexamples` | contact_book_app.py:54 | the rows of contacts named `A - B` and `A -` both give back the key `A` |
| `Sequences.Filter` | contact_book_app.py:56 | the comprehension's result is an order-preserving subsequence; it holds exactly the elements that pass the test, and its length is the number that pass |
| `Sequences.FilterUnique` | contact_book_app.py:56 | any order-preserving subsequence with only passing elements and that many of them is the filter's result |
| `ContactBook.RemoveByName` | contact_book_app.py:56 | delete keeps, in order, every record whose name differs from the key; no record named the key remains; the length drops by the number of records named the key |
| `ContactBook.RemoveByNameUnique` | contact_book_app.py:56 | no list other than `RemoveByName`'s result has those properties |
| `ContactBook.DeleteOwnRow` | contact_book_app.py:54-56 | deleting a stored contact through its own row removes it if and only if its name survives the round trip through the row text |
| `ContactBook.ContactStore.Delete` | contact_book_app.py:48-60 | with no selection, nothing changes and a warning is shown; otherwise the list becomes `RemoveByName` of the key taken from the row, and the key is reported as deleted even when nothing matched |
| `ContactBook.FirstNamed` | contact_book_app.py:71-72 | gives no index exactly when no record has the key as its name; otherwise the index of a record with that name and none before it |
| `ContactBook.EditFirst` | contact_book_app.py:71-91 | the length is unchanged; only the first record named the key can change; it becomes exactly the four new values, untrimmed, with nothing kept from the old record; the list is unchanged when no record matches or the new name or phone is empty or cancelled |
| `ContactBook.ContactStore.Edit` | contact_book_app.py:62-91 | with no selection, nothing changes and a warning is shown; otherwise the list becomes `EditFirst` for the key taken from the row; the notice is nothing when no record matches, "updated" with the new name when both required answers are filled in, and an error otherwise |
| `Text.Lower` | contact_book_app.py:101 | lower-casing keeps the length, leaves no capital `A`-`Z`, and changes a character only by turning a capital into its small letter |
| `Text.Contains` | contact_book_app.py:101 | the empty text occurs in every text, and a text that occurs in another is no longer than it |
| `ContactBook.Matching` | contact_book_app.py:98-102 | the search result is an order-preserving subsequence of the list; a record is in it if and only if its lower-cased name contains the lower-cased keyword |
| `ContactBook.MatchingUnique` | contact_book_app.py:100-102 | no other order-preserving subsequence holds only matching records and as many of them as the list has |
| `ContactBook.ContactStore.Search` | contact_book_app.py:93-109 | an empty or cancelled keyword leaves the list box alone and shows nothing; otherwise the list box shows the rows of `Matching`, and an empty result is reported as no match |

## Where the code differs from what one might expect

The model follows the code in each of these cases:

- Edit stores the dialog answers as given. A cancelled email or address dialog therefore stores `None`, not a string. This is why `Contact.email` and `Contact.address` are `Option<string>`.
- Edit with no record named like the selected row shows no message and changes nothing. The dialogs are never opened in that case, so their answers are ignored.
- Delete reports the key as deleted whether or not a record matched. It does not report how many records it removed. `RemoveByName` states the drop in length.
- Edit checks only that the new name and phone are non-empty. It does not strip them, so a name of one space is accepted.
- Search does not strip the keyword. A keyword of one space is searched.

## Left out

- The tkinter window, entry widgets, list box, colours, button layout and main loop. These are presentation. The selected row and the dialog answers are parameters.
- Message box titles and texts. Each message is a `Notice` value.
- Reading and writing the JSON data file. The file is the `contacts` field, and a missing file opens as the empty list. JSON encoding, indentation and a corrupt or unreadable file are not modelled.
- Each operation re-reads the file and writes it back. Other programs changing the file between operations are not modelled.
- `reset_inputs`, which only clears the entry widgets.
- Text.Lower: folds only the ASCII letters `A`-`Z`, where Python's `str.lower()` folds all of Unicode and applies context rules such as the Greek final sigma. For non-ASCII names, search matching therefore differs from the code in both directions. A name `É` does not match keyword `é` here but does in the code. A name `ΑΣ` matches keyword `Σ` here but not in the code, which compares `σ` with `ας`.
- Text.Strip: removes exactly the characters Python's `str.isspace()` accepts, listed in `Text.IsSpace`. Later Unicode versions that add whitespace characters are not followed.
