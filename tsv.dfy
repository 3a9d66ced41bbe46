/** One line of the contact file: fields separated by a tab. `Join` is
    Python's `"\t".join(fields)`; `Split` is how the file's reader cuts a line
    at its tabs. */
module Tsv {

  const Tab: char := '\t'

  /** `"\t".join(fields)`: no fields give the empty line, one field is the line itself. */
  function Join(fields: seq<string>): (line: string)
    ensures line == "" <==> |fields| == 0 || (|fields| == 1 && fields[0] == "")
    decreases |fields|
  {
    if |fields| == 0 then ""
    else if |fields| == 1 then fields[0]
    else fields[0] + [Tab] + Join(fields[1..])
  }

  /** The fields of a line: the pieces between tabs, so a line with n tabs has
      n + 1 fields, and no field holds a tab. */
  function Split(line: string): (fields: seq<string>)
    ensures |fields| >= 1
    ensures forall i :: 0 <= i < |fields| ==> Tab !in fields[i]
    decreases |line|
  {
    if line == [] then [""]
    else
      var rest := Split(line[1..]);
      if line[0] == Tab then [""] + rest
      else [[line[0]] + rest[0]] + rest[1..]
  }

  /** Joining the fields of a line gives the line back. */
  lemma {:induction false} JoinSplit(line: string)
    ensures Join(Split(line)) == line
    decreases |line|
  {
    if line != [] {
      var rest := Split(line[1..]);
      JoinSplit(line[1..]);
      if line[0] == Tab {
        assert ([""] + rest)[1..] == rest;
      } else {
        var fields := [[line[0]] + rest[0]] + rest[1..];
        assert fields[1..] == rest[1..];
        if |rest| > 1 {
          assert Join(rest) == rest[0] + [Tab] + Join(rest[1..]);
        }
      }
      assert line == [line[0]] + line[1..];
    }
  }

  lemma {:induction false} SplitField(f: string)
    requires Tab !in f
    ensures Split(f) == [f]
    decreases |f|
  {
    if f != [] {
      SplitField(f[1..]);
      assert [f[0]] + f[1..] == f;
    }
  }

  lemma {:induction false} SplitAfterField(f: string, s: string)
    requires Tab !in f
    ensures Split(f + [Tab] + s) == [f] + Split(s)
    decreases |f|
  {
    var line := f + [Tab] + s;
    if f == [] {
      assert line[1..] == s;
    } else {
      assert line[1..] == f[1..] + [Tab] + s;
      SplitAfterField(f[1..], s);
      assert [f[0]] + f[1..] == f;
    }
  }

  /** Splitting a joined line gives the fields back, as long as there is at
      least one field and no field holds a tab. */
  lemma {:induction false} SplitJoin(fields: seq<string>)
    requires |fields| >= 1
    requires forall i :: 0 <= i < |fields| ==> Tab !in fields[i]
    ensures Split(Join(fields)) == fields
    decreases |fields|
  {
    if |fields| == 1 {
      SplitField(fields[0]);
    } else {
      SplitJoin(fields[1..]);
      SplitAfterField(fields[0], Join(fields[1..]));
      assert [fields[0]] + fields[1..] == fields;
    }
  }

  /** A row as the file's reader yields it: a blank line gives no fields at
      all, any other line its pieces between tabs. */
  function ReadRow(line: string): seq<string> {
    if line == "" then [] else Split(line)
  }

  /** Joining the row read from a line gives the line back, blank lines included. */
  lemma JoinReadRow(line: string)
    ensures Join(ReadRow(line)) == line
  {
    JoinSplit(line);
  }

  /** Reading a non-blank line joined from tab-free fields gives those fields back. */
  lemma ReadRowJoin(fields: seq<string>)
    requires |fields| >= 1 && Join(fields) != ""
    requires forall i :: 0 <= i < |fields| ==> Tab !in fields[i]
    ensures ReadRow(Join(fields)) == fields
  {
    SplitJoin(fields);
  }

  /** A line the reader gives back as exactly its tab-separated pieces: it holds
      no line break, and none of its fields opens with the quote character. */
  predicate PlainLine(line: string) {
    '\n' !in line && '\r' !in line &&
    forall i :: 0 <= i < |Split(line)| ==> Split(line)[i] == "" || Split(line)[i][0] != '"'
  }
}
