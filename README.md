# CardDAV contact sync: the merge and download core

This project models, in Dafny, the two commands of `sync_carddav.py`, a script that copies a
CardDAV address book into a tab-separated contact file:

- `download` fetches every card, converts it to one TSV line and writes every non-empty line,
  in address-book order, repeats included.
- `sync` reads the local TSV file, keys each row by its whole tab-joined text in a Python dict,
  keys every non-empty converted card in a second dict, merges them with
  `local.update(remote)`, and writes every non-empty key back, one per line, in dict order.

Three modules follow that structure:

- `OrderedDict` (`ordered_dict.dfy`) models a Python dict whose values are all `True`, so only its
  keys matter. The class `KeyDict` is the dict itself: its iteration order `keys` is a
  `seq<string>` and its hash index `present` is a `set<string>`. Its methods are `d[k] = True` and
  `d.update(e)`. Each method is proved against the functions `Inserted` and `InsertAll`, which give
  the key order as a value. The lemmas state what a dict guarantees: no repeated key, exactly the
  keys assigned, an existing key keeps its place, and keys come out in first-seen order.
- `Tsv` (`tsv.dfy`) holds `Join`, which is `"\t".join(fields)`, `Split`, which cuts a line at its
  tabs, and `ReadRow`, the row the file's reader yields for a line (none for a blank line). It
  proves the round trips between them.
- `SyncCarddav` (`sync_carddav.dfy`) holds the commands as loop methods (`Download`, `Sync` and the
  three loops of `sync`). Each is proved equal to a specification function (`DownloadLines`,
  `LocalKeys`, `RemoteKeys`, `SyncLines`). The lemmas about those functions state what the commands
  write.

The network, the card converter and the file are outside the model:

- The address book is the sequence of card bodies the server returns, in listing order.
- The converter (`card.decode('utf8')` followed by `vcard_to_tsv`) is a parameter
  `convert: string -> string`, and nothing is assumed about it.
- The local file comes in as its rows, already cut into fields.
- What a command writes comes out as a sequence of lines.

The model follows the code, not the contact-identity merge that a redesign of this tool might want.
Rows are keyed by their full text. A contact whose fields changed on the server is therefore
written twice, once as the old local line and once as the new remote line; it is never updated in
place (`ChangedContactWrittenTwice`). Remote "precedence" amounts to this: every remote line is
present.

## Model

| member | source | states |
|---|---|---|
| OrderedDict.KeyDict.constructor | sync_carddav.py:51-52 | `dict()`: a valid dict with no keys |
| OrderedDict.KeyDict.Set | sync_carddav.py:56 | `d[k] = True` keeps the dict valid (no repeated key, index agrees with order); a present key keeps its place and a new one goes last |
| OrderedDict.KeyDict.Update | sync_carddav.py:71 | `d.update(e)` assigns e's keys (read before the first assignment) in e's order, keeping the dict valid |
| OrderedDict.InsertAllMembers | sync_carddav.py:71 | after assignments the dict holds exactly its old keys and the assigned ones |
| OrderedDict.InsertAllDistinct | sync_carddav.py:51-56 | assigning keys never makes a dict hold a key twice |
| OrderedDict.InsertAllKnown | sync_carddav.py:71 | assigning only keys already present leaves the key order unchanged |
| OrderedDict.InsertAllAppends | sync_carddav.py:71 | after assignments, the old keys keep their positions and the new keys follow in first-assigned order |
| OrderedDict.DedupOfDistinct | sync_carddav.py:55-56 | reading a sequence without repeats into a fresh dict gives that sequence back as its key order |
| OrderedDict.DedupFirstSeenOrder | sync_carddav.py:55-56 | a fresh dict's key order is first-seen order: if the later of two keys has appeared in some prefix of the assignments, so has the earlier |
| Tsv.Split | sync_carddav.py:54 | the pieces of a line between its tabs (the reader's fields for a non-blank line): at least one, and none contains a tab |
| Tsv.JoinSplit | sync_carddav.py:54-56 | joining the fields read from a line with tabs gives the line back |
| Tsv.SplitJoin | sync_carddav.py:54-56 | a line joined from at least one tab-free field splits back into exactly those fields |
| Tsv.Join | sync_carddav.py:56 | the intended key `"\t".join(row)` is the empty line exactly when the row has no fields or one empty field (a blank line) |
| Tsv.JoinReadRow | sync_carddav.py:54-56 | joining the row the reader yields for a line gives the line back, blank lines included |
| Tsv.ReadRowJoin | sync_carddav.py:54-56 | a non-blank line joined from tab-free fields reads back as exactly those fields |
| SyncCarddav.Reread | sync_carddav.py:53-56 | reading a written file back gives one row per line, and each row joins back to its line |
| SyncCarddav.Download | sync_carddav.py:18-40 | `download` writes exactly `DownloadLines` (the non-empty converted cards in fetch order), and its progress counter ends at the card count plus one |
| SyncCarddav.DownloadCounts | sync_carddav.py:30-37 | `download` writes each non-empty converted line exactly as often as cards convert to it, and never writes the empty line |
| SyncCarddav.DownloadOrder | sync_carddav.py:30-37 | `download` writes in fetch order: the lines for an address book split in two are the lines for the first part followed by those for the second |
| SyncCarddav.LocalKeys | sync_carddav.py:51-56 | the keys of `local` after reading the file have no repeats and are exactly the tab-joined rows |
| SyncCarddav.ReadLocal | sync_carddav.py:51-56 | the reading loop leaves `local` a valid fresh dict whose key order is `LocalKeys` |
| SyncCarddav.RemoteKeysMembers | sync_carddav.py:60-67 | the keys of `remote` have no repeats and are exactly the non-empty converted cards |
| SyncCarddav.FetchRemote | sync_carddav.py:58-68 | the fetch loop leaves `remote` a valid fresh dict whose key order is `RemoteKeys`, with the counter at the card count plus one |
| SyncCarddav.WriteKeys | sync_carddav.py:72-79 | the write loop writes the non-empty keys in dict order, with the counter at the key count plus one |
| SyncCarddav.Sync | sync_carddav.py:43-81 | `sync` writes exactly `SyncLines` of the local rows and the cards |
| SyncCarddav.SyncNoDuplicates | sync_carddav.py:71-79 | `sync` never writes a line twice |
| SyncCarddav.SyncMembers | sync_carddav.py:71-79 | a line is written if and only if it is non-empty and is a local row's joined line or a converted card, so nothing else is written |
| SyncCarddav.SyncKeepsLocal | sync_carddav.py:55-79 | every local row whose joined line is non-empty is written back |
| SyncCarddav.SyncKeepsRemote | sync_carddav.py:64-79 | every card that converts to a non-empty line has that line written, also when it equals a local row |
| SyncCarddav.SyncOrder | sync_carddav.py:71-79 | the output is the non-empty local keys in first-seen order, followed by the remote keys not already local, in fetch order |
| SyncCarddav.SyncRemoteKnown | sync_carddav.py:71-79 | when every non-empty converted card is already a local line, `sync` writes exactly the first occurrences of the non-empty local lines, in file order |
| SyncCarddav.FirstSyncIsDownload | sync_carddav.py:43-81 | from an empty local file, `sync` writes what `download` writes, keeping only the first copy of each line |
| SyncCarddav.SyncIdempotent | sync_carddav.py:53-79 | if every written line reads back as one row of its tab-separated pieces, then reading back the file `sync` wrote and syncing again with the same address book writes the same lines |
| SyncCarddav.ChangedContactWrittenTwice | sync_carddav.py:56-71 | a local row and a card for the same contact with a changed phone number are both written: old line first, then new |
| SyncCarddav.SyncAsWrittenNeedsEmptyFile | sync_carddav.py:56 | as written, `sync` gets past the local read only when the file yields no rows, and then writes exactly `SyncLines` |
| SyncCarddav.SyncAsWrittenLosesLocalRow | sync_carddav.py:56 | as written, a file with one contact makes `sync` raise, while the intended key writes that contact back |

## Left out

- The CardDAV client (`carddav.PyCardDAV`, `get_abook`, `get_vcard`) is not part of this model. The address book is the sequence of card bodies in listing order; the etag is unused by the source.
- `vcard_to_tsv` and the UTF-8 decoding of cards are not part of this model. They are the arbitrary total function `convert`, and their field projection is not specified.
- Tsv.Split: `csv.reader` quoting (quoted fields, doubled quotes, fields that span lines) is not modelled; a line is cut at every tab. `Tsv.ReadRow` gives a blank line no fields, as `csv.reader` does. The local rows come in as field lists already, so this affects only `Reread` in `SyncIdempotent`.
- SyncCarddav.SyncIdempotent: proved only when every written line is a `Tsv.PlainLine`, that is, it holds no `'\n'` or `'\r'` and no field opens with `"`. The source writes each key followed by `'\n'` and reads the file back with `csv.reader`. A converted card such as `a\nb` therefore comes back as the two rows `a` and `b`, and a second sync then writes `a`, `b` and `a\nb`. The model does not split written lines at line breaks, so it does not cover that case.
- File handling is not modelled: opening, the truncation of the local file at line 57 before the cards are fetched, `write`, `close`, and the trailing `'\n'` on each line. Output is the sequence of lines written. Because the model does not truncate, it does not capture that a failure during the fetch loses the local file.
- The progress messages and `sys.stdout.flush` are not modelled. The `curr` counters are returned as out-parameters.
- The dict values (always `True`) are not stored; only the keys and their order are.
- Exceptions raised by the network, the converter or the file system are not modelled. The only exception modelled is the AttributeError at line 56.
- `main` (argument parsing, password prompt, `~` expansion, the `defaults` constants) is command-line plumbing and is not part of this model.

## Findings

| source | as written | input that shows it | evidently intended | confidence | as-written member | corrected member |
|---|---|---|---|---|---|---|
| sync_carddav.py:56 | `line.join("\t")` is called on the row, a list, and lists have no `join`, so it raises AttributeError | a local file holding the one line `Bob<TAB>555-3333` (and any file with a line, even a blank one) | `"\t".join(line)`, keying each row by its tab-joined fields | high; not executed | SyncCarddav.SyncAsWrittenLosesLocalRow | SyncCarddav.LocalKeys |

As written, `sync` only reaches the merge when the local file is empty. The rest of the model uses
the intended key: `ReadLocal` and `LocalKeys` join each row with tabs.
