/** The two commands of sync_carddav.py. `Download` writes every address-book
    card that converts to a non-empty line. `Sync` merges the lines already in
    the local file with the converted cards, keyed by the whole line, and
    writes the merged keys back.

    The server is reduced to the card bodies it returns, in the order the
    address book lists them. The card-to-line converter (decoding the bytes as
    UTF-8 and then `vcard_to_tsv`) is an arbitrary total function `convert`.
    The output file is the sequence of lines written to it. */
module SyncCarddav {
  import opened OrderedDict
  import Tsv

  /** The converter from a fetched card to a TSV line; nothing is assumed about it. */
  type Converter = string -> string

  /** The converted cards, in address-book order. */
  function Converted(convert: Converter, cards: seq<string>): seq<string> {
    seq(|cards|, i requires 0 <= i < |cards| => convert(cards[i]))
  }

  /** The lines that pass `if not x == ""`: all non-empty ones, in order, repeats kept. */
  function NonEmpty(lines: seq<string>): seq<string> {
    Without(lines, [""])
  }

  /** What `download` writes. */
  function DownloadLines(convert: Converter, cards: seq<string>): seq<string> {
    NonEmpty(Converted(convert, cards))
  }

  /** The local file's rows, each joined back into a key. */
  function LocalLines(rows: seq<seq<string>>): seq<string> {
    seq(|rows|, i requires 0 <= i < |rows| => Tsv.Join(rows[i]))
  }

  /** The keys of `local` once the local file is read: each row's line, first
      occurrences only, in file order. Blank rows give the key "". */
  function LocalKeys(rows: seq<seq<string>>): (keys: seq<string>)
    ensures Distinct(keys)
    ensures forall k :: k in keys <==> k in LocalLines(rows)
  {
    InsertAllDistinct([], LocalLines(rows));
    InsertAllMembers([], LocalLines(rows));
    Dedup(LocalLines(rows))
  }

  /** The keys of `remote` once every card is fetched. */
  function RemoteKeys(convert: Converter, cards: seq<string>): seq<string> {
    Dedup(DownloadLines(convert, cards))
  }

  /** The keys of `local` after `local.update(remote)`. */
  function MergedKeys(convert: Converter, rows: seq<seq<string>>, cards: seq<string>): seq<string> {
    InsertAll(LocalKeys(rows), RemoteKeys(convert, cards))
  }

  /** What `sync` writes. */
  function SyncLines(convert: Converter, rows: seq<seq<string>>, cards: seq<string>): seq<string> {
    NonEmpty(MergedKeys(convert, rows, cards))
  }

  /** Reading a written file back: one row per line, each line cut at its tabs.
      Joining each row again gives the lines that were written. */
  function Reread(lines: seq<string>): (rows: seq<seq<string>>)
    ensures |rows| == |lines|
    ensures forall i :: 0 <= i < |lines| ==> Tsv.Join(rows[i]) == lines[i]
  {
    var rows := seq(|lines|, i requires 0 <= i < |lines| => Tsv.ReadRow(lines[i]));
    assert forall i :: 0 <= i < |lines| ==> Tsv.Join(rows[i]) == lines[i] by {
      forall i | 0 <= i < |lines| ensures Tsv.Join(rows[i]) == lines[i] {
        Tsv.JoinReadRow(lines[i]);
      }
    }
    rows
  }

  lemma DownloadLinesSnoc(convert: Converter, cards: seq<string>, i: nat)
    requires i < |cards|
    ensures DownloadLines(convert, cards[..i + 1])
         == DownloadLines(convert, cards[..i]) + (if convert(cards[i]) == "" then [] else [convert(cards[i])])
  {
    assert Converted(convert, cards[..i + 1]) == Converted(convert, cards[..i]) + [convert(cards[i])];
    WithoutSnoc(Converted(convert, cards[..i]), [""], convert(cards[i]));
  }

  /** `download` (lines 18-40). `curr` is the progress counter. */
  method Download(convert: Converter, cards: seq<string>) returns (lines: seq<string>, curr: int)
    ensures lines == DownloadLines(convert, cards)
    ensures curr == |cards| + 1
  {
    lines := [];
    curr := 1;
    var i := 0;
    while i < |cards|
      invariant 0 <= i <= |cards|
      invariant curr == i + 1
      invariant lines == DownloadLines(convert, cards[..i])
    {
      curr := curr + 1;
      var tsv := convert(cards[i]);
      DownloadLinesSnoc(convert, cards, i);
      if tsv != "" {
        lines := lines + [tsv];
      }
      i := i + 1;
    }
    assert cards[..i] == cards;
  }

  /** Lines 51-56 of `sync`, with each row's key built as `"\t".join(row)`.
      As written, line 56 calls `line.join("\t")` on the row, a list, which
      raises AttributeError, so the source reaches the merge only when the
      local file yields no rows at all; see SyncAsWritten. */
  method ReadLocal(rows: seq<seq<string>>) returns (local: KeyDict)
    ensures fresh(local) && local.Valid()
    ensures local.keys == LocalKeys(rows)
  {
    local := new KeyDict();
    var i := 0;
    while i < |rows|
      invariant 0 <= i <= |rows|
      invariant local.Valid()
      invariant local.keys == Dedup(LocalLines(rows)[..i])
    {
      assert LocalLines(rows)[..i + 1] == LocalLines(rows)[..i] + [Tsv.Join(rows[i])];
      InsertAllSnoc([], LocalLines(rows)[..i], Tsv.Join(rows[i]));
      local.Set(Tsv.Join(rows[i]));
      i := i + 1;
    }
    assert LocalLines(rows)[..i] == LocalLines(rows);
  }

  /** Lines 52 and 58-68 of `sync`: fetch and convert every card, keeping the non-empty lines. */
  method FetchRemote(convert: Converter, cards: seq<string>) returns (remote: KeyDict, curr: int)
    ensures fresh(remote) && remote.Valid()
    ensures remote.keys == RemoteKeys(convert, cards)
    ensures curr == |cards| + 1
  {
    remote := new KeyDict();
    curr := 1;
    var i := 0;
    while i < |cards|
      invariant 0 <= i <= |cards|
      invariant curr == i + 1
      invariant remote.Valid()
      invariant remote.keys == Dedup(DownloadLines(convert, cards[..i]))
    {
      curr := curr + 1;
      var tsv := convert(cards[i]);
      DownloadLinesSnoc(convert, cards, i);
      if tsv != "" {
        InsertAllSnoc([], DownloadLines(convert, cards[..i]), tsv);
        assert Dedup(DownloadLines(convert, cards[..i + 1])) == Inserted(remote.keys, tsv);
        remote.Set(tsv);
      } else {
        assert DownloadLines(convert, cards[..i + 1]) == DownloadLines(convert, cards[..i]) + []
            == DownloadLines(convert, cards[..i]);
      }
      i := i + 1;
    }
    assert cards[..i] == cards;
  }

  /** Lines 72-79 of `sync`: write every non-empty key in dict order. */
  method WriteKeys(keys: seq<string>) returns (lines: seq<string>, curr: int)
    ensures lines == NonEmpty(keys)
    ensures curr == |keys| + 1
  {
    lines := [];
    curr := 1;
    var i := 0;
    while i < |keys|
      invariant 0 <= i <= |keys|
      invariant curr == i + 1
      invariant lines == NonEmpty(keys[..i])
    {
      curr := curr + 1;
      WithoutSnoc(keys[..i], [""], keys[i]);
      assert keys[..i + 1] == keys[..i] + [keys[i]];
      if keys[i] != "" {
        lines := lines + [keys[i]];
      } else {
        assert NonEmpty(keys[..i + 1]) == lines + [] == lines;
      }
      i := i + 1;
    }
    assert keys[..i] == keys;
  }

  /** `sync` (lines 43-81). */
  method Sync(convert: Converter, rows: seq<seq<string>>, cards: seq<string>) returns (lines: seq<string>)
    ensures lines == SyncLines(convert, rows, cards)
  {
    var local := ReadLocal(rows);
    var remote, fetched := FetchRemote(convert, cards);
    local.Update(remote);
    var written;
    lines, written := WriteKeys(local.keys);
  }

  /** `download` writes each non-empty converted card as often as it occurs and never the empty line. */
  lemma DownloadCounts(convert: Converter, cards: seq<string>, line: string)
    ensures multiset(DownloadLines(convert, cards))[line]
         == if line == "" then 0 else multiset(Converted(convert, cards))[line]
  {
    WithoutCounts(Converted(convert, cards), [""], line);
  }

  /** `download` writes in address-book order: the lines for a longer address
      book extend the lines for its prefix. */
  lemma DownloadOrder(convert: Converter, first: seq<string>, later: seq<string>)
    ensures DownloadLines(convert, first + later) == DownloadLines(convert, first) + DownloadLines(convert, later)
  {
    assert Converted(convert, first + later) == Converted(convert, first) + Converted(convert, later);
    WithoutAppend(Converted(convert, first), Converted(convert, later), [""]);
  }

  /** The keys of `remote`: no repeats, and exactly the non-empty converted cards. */
  lemma RemoteKeysMembers(convert: Converter, cards: seq<string>)
    ensures Distinct(RemoteKeys(convert, cards))
    ensures forall k :: k in RemoteKeys(convert, cards) <==> k != "" && k in Converted(convert, cards)
  {
    InsertAllDistinct([], DownloadLines(convert, cards));
    InsertAllMembers([], DownloadLines(convert, cards));
    WithoutMembers(Converted(convert, cards), [""]);
  }

  /** `sync` never writes a line twice: every written line is a dict key. */
  lemma SyncNoDuplicates(convert: Converter, rows: seq<seq<string>>, cards: seq<string>)
    ensures Distinct(SyncLines(convert, rows, cards))
  {
    InsertAllDistinct(LocalKeys(rows), RemoteKeys(convert, cards));
    WithoutDistinct(MergedKeys(convert, rows, cards), [""]);
  }

  /** `sync` writes a line exactly when it is non-empty and is either a local
      row's line or a converted card: every local row and every remote card
      survives, the empty line never appears, and nothing else is written. */
  lemma SyncMembers(convert: Converter, rows: seq<seq<string>>, cards: seq<string>)
    ensures forall line :: line in SyncLines(convert, rows, cards) <==>
      line != "" && (line in LocalLines(rows) || line in Converted(convert, cards))
  {
    RemoteKeysMembers(convert, cards);
    InsertAllMembers(LocalKeys(rows), RemoteKeys(convert, cards));
    WithoutMembers(MergedKeys(convert, rows, cards), [""]);
  }

  /** Every non-empty local row is written back. */
  lemma SyncKeepsLocal(convert: Converter, rows: seq<seq<string>>, cards: seq<string>, i: nat)
    requires i < |rows| && Tsv.Join(rows[i]) != ""
    ensures Tsv.Join(rows[i]) in SyncLines(convert, rows, cards)
  {
    SyncMembers(convert, rows, cards);
    assert LocalLines(rows)[i] == Tsv.Join(rows[i]);
  }

  /** Every card that converts to a non-empty line is written, also when that
      line is already in the local file. */
  lemma SyncKeepsRemote(convert: Converter, rows: seq<seq<string>>, cards: seq<string>, i: nat)
    requires i < |cards| && convert(cards[i]) != ""
    ensures convert(cards[i]) in SyncLines(convert, rows, cards)
  {
    SyncMembers(convert, rows, cards);
    assert Converted(convert, cards)[i] == convert(cards[i]);
  }

  /** Output order: the local keys in first-seen order, then the remote keys
      that were not local, in the order the cards were fetched
      (`dict.update` keeps the place of a key already present). */
  lemma SyncOrder(convert: Converter, rows: seq<seq<string>>, cards: seq<string>)
    ensures SyncLines(convert, rows, cards)
         == NonEmpty(LocalKeys(rows)) + Without(RemoteKeys(convert, cards), LocalKeys(rows))
  {
    var lk, rk := LocalKeys(rows), RemoteKeys(convert, cards);
    var fresh_keys := Without(rk, lk);
    RemoteKeysMembers(convert, cards);
    InsertAllAppends(lk, rk);
    WithoutDistinct(rk, lk);
    DedupOfDistinct(fresh_keys);
    assert MergedKeys(convert, rows, cards) == lk + fresh_keys;
    WithoutAppend(lk, fresh_keys, [""]);
    WithoutMembers(rk, lk);
    WithoutNothing(fresh_keys, [""]);
  }

  /** When every non-empty converted card is already a local line, `sync`
      writes back the local lines, first occurrences only, minus the blank one. */
  lemma SyncRemoteKnown(convert: Converter, rows: seq<seq<string>>, cards: seq<string>)
    requires forall i :: 0 <= i < |cards| && convert(cards[i]) != "" ==> convert(cards[i]) in LocalLines(rows)
    ensures SyncLines(convert, rows, cards) == NonEmpty(LocalKeys(rows))
  {
    RemoteKeysMembers(convert, cards);
    forall k | k in RemoteKeys(convert, cards) ensures k in LocalKeys(rows) {
      var i :| 0 <= i < |cards| && Converted(convert, cards)[i] == k;
    }
    InsertAllKnown(LocalKeys(rows), RemoteKeys(convert, cards));
  }

  /** The first sync, from an empty local file, writes what `download` writes,
      first occurrences only. */
  lemma FirstSyncIsDownload(convert: Converter, cards: seq<string>)
    ensures SyncLines(convert, [], cards) == Dedup(DownloadLines(convert, cards))
  {
    var rk := RemoteKeys(convert, cards);
    assert LocalLines([]) == [];
    assert LocalKeys([]) == [];
    RemoteKeysMembers(convert, cards);
    DedupOfDistinct(rk);
    assert MergedKeys(convert, [], cards) == rk;
    WithoutNothing(rk, [""]);
  }

  /** Reading back the file `sync` wrote and syncing again with the same
      address book writes the same lines, provided each written line reads
      back as one row of its tab-separated pieces. A converted card holding a
      line break, or a field opening with a quote, is read back differently. */
  lemma {:induction false} SyncIdempotent(convert: Converter, rows: seq<seq<string>>, cards: seq<string>)
    requires forall line :: line in SyncLines(convert, rows, cards) ==> Tsv.PlainLine(line)
    ensures SyncLines(convert, Reread(SyncLines(convert, rows, cards)), cards) == SyncLines(convert, rows, cards)
  {
    var out := SyncLines(convert, rows, cards);
    var again := Reread(out);
    assert LocalLines(again) == out;
    SyncNoDuplicates(convert, rows, cards);
    DedupOfDistinct(out);
    assert LocalKeys(again) == out;
    SyncMembers(convert, rows, cards);
    RemoteKeysMembers(convert, cards);
    InsertAllKnown(out, RemoteKeys(convert, cards));
    assert MergedKeys(convert, again, cards) == out;
    WithoutNothing(out, [""]);
  }

  lemma LocalKeysOfOneRow(row: seq<string>)
    ensures LocalKeys([row]) == [Tsv.Join(row)]
  {
    assert LocalLines([row]) == [] + [Tsv.Join(row)];
    InsertAllSnoc([], [], Tsv.Join(row));
  }

  lemma RemoteKeysOfOneCard(convert: Converter, card: string)
    requires convert(card) != ""
    ensures RemoteKeys(convert, [card]) == [convert(card)]
  {
    assert Converted(convert, [card]) == [] + [convert(card)];
    WithoutSnoc([], [""], convert(card));
    InsertAllSnoc([], [], convert(card));
  }

  /** Rows are keyed by their whole content, so a contact whose phone number
      changed on the server is written twice: the old local line, then the new one. */
  lemma ChangedContactWrittenTwice(convert: Converter, card: string)
    requires convert(card) == "Alice\t555-2222\talice@x.com"
    ensures SyncLines(convert, [["Alice", "555-1111", ""]], [card])
         == ["Alice\t555-1111\t", "Alice\t555-2222\talice@x.com"]
  {
    var old_line, new_line := "Alice\t555-1111\t", "Alice\t555-2222\talice@x.com";
    var row := ["Alice", "555-1111", ""];
    assert Tsv.Join(row) == old_line by {
      assert row[1..] == ["555-1111", ""] && row[1..][1..] == [""];
    }
    LocalKeysOfOneRow(row);
    RemoteKeysOfOneCard(convert, card);
    assert old_line != new_line by {
      assert |old_line| != |new_line|;
    }
    InsertAllSnoc([old_line], [], new_line);
    WithoutNothing([old_line, new_line], [""]);
  }

  /** The exception raised on a Python path that the model follows. */
  datatype Exception = AttributeError(message: string)

  datatype Outcome<T> = Completed(value: T) | Raised(error: Exception)

  /** Line 56 as written: `line.join("\t")` asks the row (a Python list) for a
      `join` attribute, which lists do not have. */
  function LocalKeyAsWritten(row: seq<string>): Outcome<string> {
    Raised(AttributeError("'list' object has no attribute 'join'"))
  }

  /** Lines 55-56 as written: the keys of `local` after the rows are read one
      after the other, or the exception the first row raises. */
  function ReadLocalAsWritten(rows: seq<seq<string>>): Outcome<seq<string>>
    decreases |rows|
  {
    if rows == [] then Completed([])
    else match ReadLocalAsWritten(rows[..|rows| - 1])
      case Raised(e) => Raised(e)
      case Completed(keys) =>
        match LocalKeyAsWritten(rows[|rows| - 1])
        case Raised(e) => Raised(e)
        case Completed(k) => Completed(Inserted(keys, k))
  }

  /** `sync` as written: it reaches the merge only when the reader yields no
      row at all; the output is then the same as `SyncLines`. */
  function SyncAsWritten(convert: Converter, rows: seq<seq<string>>, cards: seq<string>): Outcome<seq<string>> {
    match ReadLocalAsWritten(rows)
    case Raised(e) => Raised(e)
    case Completed(local) => Completed(NonEmpty(InsertAll(local, RemoteKeys(convert, cards))))
  }

  /** As written, any local file with a row (a blank line included) makes
      `sync` raise before anything is fetched; only an empty file is merged. */
  lemma SyncAsWrittenNeedsEmptyFile(convert: Converter, rows: seq<seq<string>>, cards: seq<string>)
    ensures SyncAsWritten(convert, rows, cards).Completed? <==> rows == []
    ensures rows == [] ==> SyncAsWritten(convert, rows, cards) == Completed(SyncLines(convert, rows, cards))
  {
  }

  /** A local file holding one contact: as written, `sync` raises, while the
      intended key keeps the contact and writes it back. */
  lemma SyncAsWrittenLosesLocalRow(convert: Converter, cards: seq<string>)
    ensures SyncAsWritten(convert, [["Bob", "555-3333"]], cards).Raised?
    ensures "Bob\t555-3333" in SyncLines(convert, [["Bob", "555-3333"]], cards)
  {
    assert Tsv.Join(["Bob", "555-3333"]) == "Bob\t555-3333";
    SyncKeepsLocal(convert, [["Bob", "555-3333"]], cards, 0);
  }
}
