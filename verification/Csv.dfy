/** A benchmark row: commas outside quotes separate its fields, and quotes themselves vanish. */
module Csv {
  import opened Trimming

  // The number of quote characters among the first n.
  function Quotes(s: string, n: nat): nat
    requires n <= |s|
  {
    if n == 0 then 0 else Quotes(s, n - 1) + if s[n - 1] == '"' then 1 else 0
  }

  // A comma separates when an even number of quotes precedes it.
  predicate Separates(s: string, i: nat) {
    i < |s| && s[i] == ',' && Quotes(s, i) % 2 == 0
  }

  function Separators(s: string, n: nat): set<nat> {
    set i: nat | i < n && Separates(s, i)
  }

  // The last separator among the first n characters, or -1.
  function LastSeparator(s: string, n: nat): int
    requires n <= |s|
  {
    if n == 0 then -1 else if Separates(s, n - 1) then n - 1 else LastSeparator(s, n - 1)
  }

  lemma {:induction false} LastSeparatorExactly(s: string, n: nat)
    requires n <= |s|
    ensures var k := LastSeparator(s, n);
      && -1 <= k < n && (k >= 0 ==> Separates(s, k))
      && forall i: nat :: k < i < n ==> !Separates(s, i)
  {
    if n > 0 {
      LastSeparatorExactly(s, n - 1);
    }
  }

  // The text between two positions without its quotes, wherever they are.
  function Unquoted(s: string, from: nat, to: nat): string
    requires from <= to <= |s|
  {
    if from == to then ""
    else Unquoted(s, from, to - 1) + if s[to - 1] == '"' then "" else [s[to - 1]]
  }

  // What lies between the separators of the first n characters.
  function RawFields(s: string, n: nat): seq<string>
    requires n <= |s|
  {
    LastSeparatorExactly(s, n);
    var k := LastSeparator(s, n);
    (if k < 0 then [] else RawFields(s, k)) + [Unquoted(s, k + 1, n)]
  }

  function Trims(fields: seq<string>): seq<string> {
    seq(|fields|, i requires 0 <= i < |fields| => Trim(fields[i]))
  }

  // The fields of a row.
  function Fields(s: string): seq<string> {
    Trims(RawFields(s, |s|))
  }

  // What the loop below has when it has read n characters: the fields that are complete, the
  // current one, and whether it is inside quotes.
  ghost predicate Scanned(line: string, n: nat, complete: seq<string>, current: string, inQuotes: bool)
    requires n <= |line|
  {
    RawFields(line, n) == complete + [current] && inQuotes == (Quotes(line, n) % 2 == 1)
  }

  // A separator starts a new field; any other character goes to the last one.
  lemma RawFieldsOneMore(s: string, n: nat, complete: seq<string>, current: string)
    requires n < |s| && RawFields(s, n) == complete + [current]
    ensures RawFields(s, n + 1) ==
      if Separates(s, n) then complete + [current] + [""]
      else complete + [current + if s[n] == '"' then "" else [s[n]]]
  {
    LastSeparatorExactly(s, n);
    var k := LastSeparator(s, n);
    assert RawFields(s, n)[..|complete|] == complete && RawFields(s, n)[|complete|] == current;
    assert complete == if k < 0 then [] else RawFields(s, k);
    assert current == Unquoted(s, k + 1, n);
    if Separates(s, n) {
      assert LastSeparator(s, n + 1) == n && Unquoted(s, n + 1, n + 1) == "";
    } else {
      assert LastSeparator(s, n + 1) == k;
    }
  }

  lemma ScanOneMore(line: string, n: nat, complete: seq<string>, current: string, inQuotes: bool)
    requires n < |line| && Scanned(line, n, complete, current, inQuotes)
    ensures line[n] == '"' ==> Scanned(line, n + 1, complete, current, !inQuotes)
    ensures line[n] == ',' && !inQuotes ==> Scanned(line, n + 1, complete + [current], "", inQuotes)
    ensures line[n] != '"' && !(line[n] == ',' && !inQuotes) ==>
      Scanned(line, n + 1, complete, current + [line[n]], inQuotes)
  {
    RawFieldsOneMore(line, n, complete, current);
    assert current + "" == current;
  }

  // The loop over the characters, with the current field and the quote state.
  method SplitCsvRow(line: string) returns (fields: seq<string>)
    ensures fields == Fields(line)
  {
    fields := [];
    var current := "";
    var inQuotes := false;
    ghost var complete := [];
    for n := 0 to |line|
      invariant Scanned(line, n, complete, current, inQuotes)
      invariant fields == Trims(complete)
    {
      ScanOneMore(line, n, complete, current, inQuotes);
      var ch := line[n];
      if ch == '"' {
        inQuotes := !inQuotes;
      } else if ch == ',' && !inQuotes {
        fields := fields + [Trim(current)];
        complete := complete + [current];
        current := "";
      } else {
        current := current + [ch];
      }
    }
    fields := fields + [Trim(current)];
  }

  lemma {:induction false} RawFieldsPerSeparator(s: string, n: nat)
    requires n <= |s|
    ensures |RawFields(s, n)| == 1 + |Separators(s, n)|
  {
    LastSeparatorExactly(s, n);
    var k := LastSeparator(s, n);
    if k >= 0 {
      RawFieldsPerSeparator(s, k);
      assert Separators(s, n) == Separators(s, k) + {k};
    } else {
      assert Separators(s, n) == {};
    }
  }

  // One field more than commas preceded by an even number of quotes.
  lemma FieldsPerSeparator(s: string)
    ensures |Fields(s)| == 1 + |Separators(s, |s|)|
  {
    RawFieldsPerSeparator(s, |s|);
  }

  // ---- nothing but the quotes is lost before trimming ----

  function Joined(fields: seq<string>): string
    requires fields != []
  {
    var n := |fields| - 1;
    if n == 0 then fields[0] else Joined(fields[..n]) + "," + fields[n]
  }

  lemma JoinedOneMore(front: seq<string>, last: string)
    ensures Joined(front + [last]) == if front == [] then last else Joined(front) + "," + last
  {
    assert (front + [last])[..|front|] == front;
  }

  lemma {:induction false} UnquotedSplits(s: string, k: nat, n: nat)
    requires k < n <= |s| && s[k] == ','
    ensures Unquoted(s, 0, n) == Unquoted(s, 0, k) + "," + Unquoted(s, k + 1, n)
  {
    if n == k + 1 {
      assert Unquoted(s, 0, k) + "," + "" == Unquoted(s, 0, k) + [s[k]];
    } else {
      UnquotedSplits(s, k, n - 1);
    }
  }

  // Joining the fields again, before they are trimmed, gives the row without its quotes.
  lemma {:induction false} JoinedFieldsAreTheRow(s: string, n: nat)
    requires n <= |s|
    ensures Joined(RawFields(s, n)) == Unquoted(s, 0, n)
  {
    LastSeparatorExactly(s, n);
    var k := LastSeparator(s, n);
    if k < 0 {
      assert [] + [Unquoted(s, 0, n)] == [Unquoted(s, 0, n)];
    } else {
      JoinedFieldsAreTheRow(s, k);
      JoinedOneMore(RawFields(s, k), Unquoted(s, k + 1, n));
      UnquotedSplits(s, k, n);
    }
  }

  // ---- the round trip ----

  function Quoted(field: string): string {
    "\"" + field + "\""
  }

  // Every field quoted, joined by commas.
  function Row(fields: seq<string>): string
    requires fields != []
  {
    var n := |fields| - 1;
    if n == 0 then Quoted(fields[0]) else Row(fields[..n]) + "," + Quoted(fields[n])
  }

  predicate Plain(fields: seq<string>) {
    forall i :: 0 <= i < |fields| ==> '"' !in fields[i]
  }

  // Fields depend only on the characters read.
  lemma {:induction false} QuotesOfPrefix(s: string, t: string, n: nat)
    requires n <= |s| && n <= |t| && forall i :: 0 <= i < n ==> s[i] == t[i]
    ensures Quotes(s, n) == Quotes(t, n)
  {
    if n > 0 {
      QuotesOfPrefix(s, t, n - 1);
    }
  }

  lemma {:induction false} UnquotedOfPrefix(s: string, t: string, from: nat, to: nat)
    requires from <= to <= |s| && to <= |t| && forall i :: 0 <= i < to ==> s[i] == t[i]
    ensures Unquoted(s, from, to) == Unquoted(t, from, to)
  {
    if from < to {
      UnquotedOfPrefix(s, t, from, to - 1);
    }
  }

  lemma {:induction false} LastSeparatorOfPrefix(s: string, t: string, n: nat)
    requires n <= |s| && n <= |t| && forall i :: 0 <= i < n ==> s[i] == t[i]
    ensures LastSeparator(s, n) == LastSeparator(t, n)
  {
    if n > 0 {
      QuotesOfPrefix(s, t, n - 1);
      LastSeparatorOfPrefix(s, t, n - 1);
    }
  }

  lemma {:induction false} RawFieldsOfPrefix(s: string, t: string, n: nat)
    requires n <= |s| && n <= |t| && forall i :: 0 <= i < n ==> s[i] == t[i]
    ensures RawFields(s, n) == RawFields(t, n)
  {
    var k := LastSeparator(s, n);
    LastSeparatorExactly(s, n);
    LastSeparatorOfPrefix(s, t, n);
    UnquotedOfPrefix(s, t, k + 1, n);
    if k >= 0 {
      RawFieldsOfPrefix(s, t, k);
    }
  }

  // A stretch of text without quotes.
  lemma {:induction false} PlainStretch(s: string, from: nat, to: nat)
    requires from <= to <= |s| && forall i :: from <= i < to ==> s[i] != '"'
    ensures Quotes(s, to) == Quotes(s, from) && Unquoted(s, from, to) == s[from..to]
  {
    if from < to {
      PlainStretch(s, from, to - 1);
    }
  }

  lemma {:induction false} UnquotedSkipsQuote(s: string, from: nat, to: nat)
    requires from < to <= |s| && s[from] == '"'
    ensures Unquoted(s, from, to) == Unquoted(s, from + 1, to)
  {
    if from + 1 < to {
      UnquotedSkipsQuote(s, from, to - 1);
    }
  }

  // A quoted stretch that starts outside quotes ends outside quotes and has no separator.
  lemma QuotedStretch(s: string, from: nat, to: nat)
    requires from + 2 <= to <= |s| && Quotes(s, from) % 2 == 0
    requires s[from] == '"' && s[to - 1] == '"' && forall i :: from < i < to - 1 ==> s[i] != '"'
    ensures Quotes(s, to) % 2 == 0 && Unquoted(s, from, to) == s[from + 1..to - 1]
    ensures forall i: nat :: from <= i < to ==> !Separates(s, i)
  {
    PlainStretch(s, from + 1, to - 1);
    UnquotedSkipsQuote(s, from, to - 1);
    forall i: nat | from < i < to - 1 ensures !Separates(s, i) {
      PlainStretch(s, from + 1, i);
    }
  }

  // The last separator is the comma before the last quoted field, if there is one.
  lemma LastSeparatorIs(s: string, k: int)
    requires -1 <= k < |s| && (k >= 0 ==> Separates(s, k))
    requires forall i: nat :: k < i < |s| ==> !Separates(s, i)
    ensures LastSeparator(s, |s|) == k
  {
    LastSeparatorExactly(s, |s|);
  }

  lemma QuotedFieldAlone(field: string)
    requires '"' !in field
    ensures RawFields(Quoted(field), |Quoted(field)|) == [field]
    ensures Quotes(Quoted(field), |Quoted(field)|) % 2 == 0
  {
    var s := Quoted(field);
    QuotedStretch(s, 0, |s|);
    LastSeparatorIs(s, -1);
  }

  lemma QuotedFieldAppended(row: string, field: string)
    requires '"' !in field && Quotes(row, |row|) % 2 == 0
    ensures var s := row + "," + Quoted(field);
      RawFields(s, |s|) == RawFields(row, |row|) + [field] && Quotes(s, |s|) % 2 == 0
  {
    var s, k := row + "," + Quoted(field), |row|;
    QuotesOfPrefix(s, row, k);
    RawFieldsOfPrefix(s, row, k);
    QuotedStretch(s, k + 1, |s|);
    LastSeparatorIs(s, k);
    assert s[k + 2..|s| - 1] == field;
  }

  lemma RowEndsWithLast(fields: seq<string>)
    requires |fields| >= 2
    ensures var n := |fields| - 1; Row(fields) == Row(fields[..n]) + "," + Quoted(fields[n])
  {}

  lemma InitThenLast(fields: seq<string>)
    requires fields != []
    ensures var n := |fields| - 1; fields == fields[..n] + [fields[n]]
  {}

  // One more field, given what the row before it splits into.
  lemma RoundTripOneMore(front: seq<string>, field: string, row: string, longer: string)
    requires '"' !in field && longer == row + "," + Quoted(field)
    requires RawFields(row, |row|) == front && Quotes(row, |row|) % 2 == 0
    ensures RawFields(longer, |longer|) == front + [field] && Quotes(longer, |longer|) % 2 == 0
  {
    QuotedFieldAppended(row, field);
  }

  lemma {:induction false} RoundTrip(fields: seq<string>)
    requires fields != [] && Plain(fields)
    ensures var row := Row(fields);
      RawFields(row, |row|) == fields && Quotes(row, |row|) % 2 == 0
    decreases |fields|
  {
    var n := |fields| - 1;
    if n == 0 {
      QuotedFieldAlone(fields[0]);
    } else {
      RowEndsWithLast(fields);
      InitThenLast(fields);
      RoundTrip(fields[..n]);
      RoundTripOneMore(fields[..n], fields[n], Row(fields[..n]), Row(fields));
    }
  }

  lemma {:induction false} UnquotedHasNoQuote(s: string, from: nat, to: nat)
    requires from <= to <= |s|
    ensures '"' !in Unquoted(s, from, to)
  {
    if from < to {
      UnquotedHasNoQuote(s, from, to - 1);
    }
  }

  lemma {:induction false} RawFieldsArePlain(s: string, n: nat)
    requires n <= |s|
    ensures Plain(RawFields(s, n))
  {
    LastSeparatorExactly(s, n);
    var k := LastSeparator(s, n);
    UnquotedHasNoQuote(s, k + 1, n);
    if k >= 0 {
      RawFieldsArePlain(s, k);
    }
  }

  // Trimming one list of fields to the trims of another keeps quotes where they were.
  lemma TrimsKeepQuotes(a: seq<string>, b: seq<string>)
    requires Trims(a) == Trims(b) && Plain(a)
    ensures Plain(b)
  {
    assert |a| == |Trims(a)| == |b|;
    forall i | 0 <= i < |b| ensures '"' !in b[i] {
      TrimKeepsInk(a[i], '"');
      TrimKeepsInk(b[i], '"');
      assert Trims(a)[i] == Trims(b)[i];
    }
  }

  // Quoting, joining and splitting gives back the trimmed fields exactly when no field has a
  // quote in it: there is no way to write one, doubled or not.
  lemma RoundTripExactly(fields: seq<string>)
    requires fields != []
    ensures Fields(Row(fields)) == Trims(fields) <==> Plain(fields)
  {
    var row := Row(fields);
    RawFieldsArePlain(row, |row|);
    if Plain(fields) {
      RoundTrip(fields);
    }
    if Fields(row) == Trims(fields) {
      TrimsKeepQuotes(RawFields(row, |row|), fields);
    }
  }
}
