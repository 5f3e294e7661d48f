/** The question-bank loader of the mount effect: CSV text in, ordered question
    records out. */
module Loader {
  import opened Wrappers
  import opened Text
  import opened Questions

  /** `s` holds an even number of `"` characters. */
  predicate EvenQuotes(s: string) {
    if s == [] then true
    else if s[0] == '"' then !EvenQuotes(s[1..])
    else EvenQuotes(s[1..])
  }

  /** Parities add up. */
  lemma {:induction false} EvenQuotesConcat(a: string, b: string)
    ensures EvenQuotes(a + b) == (EvenQuotes(a) == EvenQuotes(b))
    decreases |a|
  {
    if a == [] {
      assert a + b == b;
    } else {
      assert (a + b)[0] == a[0];
      assert (a + b)[1..] == a[1..] + b;
      EvenQuotesConcat(a[1..], b);
    }
  }

  lemma {:induction false} NoQuotesEven(s: string)
    requires '"' !in s
    ensures EvenQuotes(s)
    decreases |s|
  {
    if s != [] {
      NoQuotesEven(s[1..]);
    }
  }

  /** The comma at `i` separates fields: everything after it holds an even number
      of quotes, so it does not sit inside a quoted field. */
  predicate IsSeparatorAt(line: string, i: nat)
    requires i < |line|
  {
    line[i] == ',' && EvenQuotes(line[i + 1..])
  }

  /** `line.split(/,(?=(?:(?:[^"]*"){2})*[^"]*$)/)`: the pieces between separator
      commas; always at least one piece. Whether a comma separates depends only on
      what follows it, so the split can be read off the line's suffixes. */
  function Fields(line: string): (r: seq<string>)
    ensures |r| >= 1
    decreases |line|
  {
    if |line| == 0 then [""]
    else
      var rest := Fields(line[1..]);
      if IsSeparatorAt(line, 0) then [""] + rest else [[line[0]] + rest[0]] + rest[1..]
  }

  /** Joining the fields with commas gives back the line. */
  lemma {:induction false} JoinFields(line: string)
    ensures Join(Fields(line), ',') == line
    decreases |line|
  {
    if |line| > 0 {
      var rest := Fields(line[1..]);
      JoinFields(line[1..]);
      if IsSeparatorAt(line, 0) {
        assert Fields(line)[1..] == rest;
      } else {
        JoinHead(rest, [line[0]], ',');
      }
      assert line == [line[0]] + line[1..];
    }
  }

  /** On a line without quotes the rule splits at every comma, exactly as a plain
      `split(',')` would. */
  lemma {:induction false} FieldsWithoutQuotes(line: string)
    requires '"' !in line
    ensures Fields(line) == SplitOn(line, ',')
    decreases |line|
  {
    if |line| > 0 {
      NoQuotesEven(line[1..]);
      FieldsWithoutQuotes(line[1..]);
    }
  }

  /** One step of the split: the first character either separates or joins the
      first field of the rest. */
  lemma FieldsCons(x: char, t: string)
    ensures Fields([x] + t) ==
      if x == ',' && EvenQuotes(t) then [""] + Fields(t)
      else [[x] + Fields(t)[0]] + Fields(t)[1..]
  {
    assert ([x] + t)[1..] == t;
  }

  /** A comma followed by a part with an even number of quotes cuts the line in two
      independently split halves. */
  lemma {:induction false} FieldsAppend(a: string, b: string)
    requires EvenQuotes(b)
    ensures Fields(a + [','] + b) == Fields(a) + Fields(b)
    decreases |a|
  {
    if a == [] {
      FieldsAppendEmpty(b);
    } else {
      FieldsAppend(a[1..], b);
      FieldsAppendStep(a[0], a[1..], b);
      HeadTail(a, b);
    }
  }

  lemma FieldsAppendEmpty(b: string)
    requires EvenQuotes(b)
    ensures Fields([] + [','] + b) == Fields([]) + Fields(b)
  {
    assert [] + [','] + b == [','] + b;
    FieldsCons(',', b);
  }

  lemma HeadTail(a: string, b: string)
    requires a != []
    ensures [a[0]] + a[1..] == a
    ensures [a[0]] + (a[1..] + [','] + b) == a + [','] + b
  {
  }

  lemma FieldsAppendStep(x: char, a: string, b: string)
    requires EvenQuotes(b)
    requires Fields(a + [','] + b) == Fields(a) + Fields(b)
    ensures Fields([x] + (a + [','] + b)) == Fields([x] + a) + Fields(b)
  {
    var t := a + [','] + b;
    EvenQuotesAppend(a, b);
    FieldsCons(x, t);
    FieldsCons(x, a);
    ConsFirst(x, x == ',' && EvenQuotes(a), Fields(a), Fields(b));
  }

  /** Sequence algebra for the step above: one step of the split commutes with
      appending more pieces. */
  lemma ConsFirst(x: char, sep: bool, fa: seq<string>, fb: seq<string>)
    requires |fa| >= 1
    ensures (if sep then [""] + (fa + fb) else [[x] + (fa + fb)[0]] + (fa + fb)[1..])
      == (if sep then [""] + fa else [[x] + fa[0]] + fa[1..]) + fb
  {
    assert (fa + fb)[0] == fa[0];
    assert (fa + fb)[1..] == fa[1..] + fb;
  }

  lemma EvenQuotesAppend(a: string, b: string)
    requires EvenQuotes(b)
    ensures EvenQuotes(a + [','] + b) == EvenQuotes(a)
  {
    EvenQuotesConcat(a + [','], b);
    EvenQuotesConcat(a, [',']);
    assert EvenQuotes([',']);
  }

  /** A line with no separator comma is one field. */
  lemma {:induction false} FieldsNoSeparator(f: string)
    requires forall i :: 0 <= i < |f| ==> !IsSeparatorAt(f, i)
    ensures Fields(f) == [f]
    decreases |f|
  {
    if |f| > 0 {
      forall i | 0 <= i < |f| - 1 ensures !IsSeparatorAt(f[1..], i) {
        assert f[1..][i + 1..] == f[i + 2..];
        assert !IsSeparatorAt(f, i + 1);
      }
      FieldsNoSeparator(f[1..]);
      assert [f[0]] + f[1..] == f;
    }
  }

  /** A well-formed CSV field: unquoted without commas or quotes, or wrapped in
      quotes with no quote inside (commas allowed). */
  predicate CsvField(f: string) {
    ('"' !in f && ',' !in f)
    || (|f| >= 2 && f[0] == '"' && f[|f| - 1] == '"' && '"' !in f[1..|f| - 1])
  }

  lemma QuotedFieldQuotes(f: string)
    requires |f| >= 2 && f[0] == '"' && f[|f| - 1] == '"' && '"' !in f[1..|f| - 1]
    ensures EvenQuotes(f)
  {
    var n := |f|;
    var inner := f[1..n - 1];
    NoQuotesEven(inner);
    assert f == [f[0]] + inner + [f[n - 1]];
    EvenQuotesConcat([f[0]] + inner, [f[n - 1]]);
    EvenQuotesConcat([f[0]], inner);
  }

  /** Inside a quoted field every comma is followed by exactly one quote, the closing
      one, so none of them separates. */
  lemma QuotedFieldWhole(f: string)
    requires |f| >= 2 && f[0] == '"' && f[|f| - 1] == '"' && '"' !in f[1..|f| - 1]
    ensures Fields(f) == [f]
  {
    var n := |f|;
    forall i | 0 <= i < n ensures !IsSeparatorAt(f, i) {
      if 0 < i < n - 1 {
        var tail := f[i + 1..n - 1];
        assert f[i + 1..] == tail + [f[n - 1]];
        assert '"' !in tail by {
          forall k | 0 <= k < |tail| ensures tail[k] != '"' {
            assert tail[k] == f[1..n - 1][i + k];
          }
        }
        NoQuotesEven(tail);
        EvenQuotesConcat(tail, [f[n - 1]]);
      }
    }
    FieldsNoSeparator(f);
  }

  lemma CsvFieldQuotes(f: string)
    requires CsvField(f)
    ensures EvenQuotes(f)
    ensures Fields(f) == [f]
  {
    if '"' !in f && ',' !in f {
      NoQuotesEven(f);
      FieldsNoSeparator(f);
    } else {
      QuotedFieldQuotes(f);
      QuotedFieldWhole(f);
    }
  }

  lemma {:induction false} JoinedCsvFieldsQuotes(fs: seq<string>)
    requires |fs| >= 1 && forall k :: 0 <= k < |fs| ==> CsvField(fs[k])
    ensures EvenQuotes(Join(fs, ','))
    decreases |fs|
  {
    CsvFieldQuotes(fs[0]);
    if |fs| > 1 {
      JoinedCsvFieldsQuotes(fs[1..]);
      EvenQuotesAppend(fs[0], Join(fs[1..], ','));
    }
  }

  /** Round trip: well-formed fields joined with commas split back into exactly
      those fields, quoted commas included. */
  lemma {:induction false} FieldsOfJoin(fs: seq<string>)
    requires |fs| >= 1 && forall k :: 0 <= k < |fs| ==> CsvField(fs[k])
    ensures Fields(Join(fs, ',')) == fs
    decreases |fs|
  {
    CsvFieldQuotes(fs[0]);
    if |fs| > 1 {
      FieldsOfJoin(fs[1..]);
      JoinedCsvFieldsQuotes(fs[1..]);
      FieldsAppend(fs[0], Join(fs[1..], ','));
      assert fs == [fs[0]] + fs[1..];
    }
  }

  /** `replace(/^"|"$/g, '')`: drops one leading and one trailing quote. */
  function StripQuotes(s: string): (r: string)
    ensures |s| >= 2 && s[0] == '"' && s[|s| - 1] == '"' ==> r == s[1..|s| - 1]
    ensures (s == [] || s[0] != '"') && (s == [] || s[|s| - 1] != '"') ==> r == s
    ensures |s| > 0 && s[0] == '"' && (|s| == 1 || s[|s| - 1] != '"') ==> r == s[1..]
    ensures |s| > 0 && s[0] != '"' && s[|s| - 1] == '"' ==> r == s[..|s| - 1]
  {
    var t := if |s| > 0 && s[0] == '"' then s[1..] else s;
    if |t| > 0 && t[|t| - 1] == '"' then t[..|t| - 1] else t
  }

  /** `clean` of the loader: quotes off, then `trim`. */
  function Clean(s: string): string {
    Trim(StripQuotes(s))
  }

  /** The four keys a question's options are stored under. */
  const OptionKeys: seq<string> := ["optionA", "optionB", "optionC", "optionD"]

  /** The correct-answer indicator, already cleaned and lower-cased, mapped to an
      option key. A bare letter or any indicator mentioning "option" takes the first
      of a, b, c, d it contains; an "option" indicator with none of them is kept as
      it is; everything else silently becomes optionA. */
  function CorrectKey(k: string): (r: string)
    ensures k in ["a", "b", "c", "d"] ==> r == "option" + [(k[0] as int - 32) as char]
    ensures k !in ["a", "b", "c", "d"] && !Contains(k, "option") ==> r == "optionA"
    ensures Contains(k, "option") ==> (r == k <==> 'a' !in k && 'b' !in k && 'c' !in k && 'd' !in k)
    ensures Contains(k, "option") && 'a' in k ==> r == "optionA"
    ensures Contains(k, "option") && 'a' !in k && 'b' in k ==> r == "optionB"
    ensures Contains(k, "option") && 'a' !in k && 'b' !in k && 'c' in k ==> r == "optionC"
    ensures Contains(k, "option") && 'a' !in k && 'b' !in k && 'c' !in k && 'd' in k ==> r == "optionD"
    ensures r in OptionKeys || r == k
  {
    if k in ["a", "b", "c", "d"] || Contains(k, "option") then
      if 'a' in k then "optionA"
      else if 'b' in k then "optionB"
      else if 'c' in k then "optionC"
      else if 'd' in k then "optionD"
      else k
    else "optionA"
  }

  /** The key stored for a raw sixth field. */
  function KeyOf(raw: string): string {
    CorrectKey(ToLower(Clean(raw)))
  }

  /** A line that can hold a question: at least six fields and a non-empty text. */
  predicate Qualifies(line: string) {
    var parts := Fields(line);
    |parts| >= 6 && Clean(parts[0]) != ""
  }

  /** The id of the question on line `idx`. */
  function IdFor(idx: nat): string {
    "q-" + NatToString(idx)
  }

  lemma IdForInjective(i: nat, j: nat)
    requires IdFor(i) == IdFor(j)
    ensures i == j
  {
    assert IdFor(i)[2..] == NatToString(i);
    assert IdFor(j)[2..] == NatToString(j);
    NatToStringInjective(i, j);
  }

  /** The record line `idx` yields, if any. Line 0 is the header and yields none. */
  function ParseLine(line: string, idx: nat): (r: Option<Question>)
    ensures r.Some? <==> idx > 0 && Qualifies(line)
    ensures r.Some? ==> r.value.id == IdFor(idx) && r.value.text != ""
  {
    var parts := Fields(line);
    if |parts| >= 6 && idx > 0 && Clean(parts[0]) != "" then
      Some(Question(IdFor(idx), Clean(parts[0]), Clean(parts[1]), Clean(parts[2]),
                    Clean(parts[3]), Clean(parts[4]), KeyOf(parts[5])))
    else None
  }

  /** A row written from six or more well-formed fields loads into the record made
      of those fields, cleaned. */
  lemma ParseRow(fs: seq<string>, idx: nat)
    requires |fs| >= 6 && forall k :: 0 <= k < |fs| ==> CsvField(fs[k])
    requires idx > 0 && Clean(fs[0]) != ""
    ensures ParseLine(Join(fs, ','), idx)
      == Some(Question(IdFor(idx), Clean(fs[0]), Clean(fs[1]), Clean(fs[2]),
                       Clean(fs[3]), Clean(fs[4]), KeyOf(fs[5])))
  {
    FieldsOfJoin(fs);
  }

  /** What each line makes of itself, line by line. */
  function LineResults(lines: seq<string>): (r: seq<Option<Question>>)
    ensures |r| == |lines|
    ensures forall i :: 0 <= i < |lines| ==> r[i] == ParseLine(lines[i], i)
  {
    seq(|lines|, i requires 0 <= i < |lines| => ParseLine(lines[i], i))
  }

  /** The values among the first `n` entries of `ps`, in order. */
  function Kept(ps: seq<Option<Question>>, n: nat): seq<Question>
    requires n <= |ps|
  {
    if n == 0 then []
    else Kept(ps, n - 1) + (if ps[n - 1].Some? then [ps[n - 1].value] else [])
  }

  /** The positions those values sit at: one per value, increasing, below `n`. */
  ghost function KeptAt(ps: seq<Option<Question>>, n: nat): (r: seq<nat>)
    requires n <= |ps|
    ensures |r| == |Kept(ps, n)|
    ensures forall k :: 0 <= k < |r| ==> r[k] < n
    ensures forall j, k :: 0 <= j < k < |r| ==> r[j] < r[k]
  {
    if n == 0 then []
    else KeptAt(ps, n - 1) + (if ps[n - 1].Some? then [n - 1] else [])
  }

  /** The `k`-th kept value is the one at the `k`-th position. */
  lemma {:induction false} KeptAtPositions(ps: seq<Option<Question>>, n: nat)
    requires n <= |ps|
    ensures forall k :: 0 <= k < |KeptAt(ps, n)| ==> ps[KeptAt(ps, n)[k]] == Some(Kept(ps, n)[k])
  {
    if n > 0 {
      KeptAtPositions(ps, n - 1);
      var pos, vals := KeptAt(ps, n - 1), Kept(ps, n - 1);
      if ps[n - 1].Some? {
        assert KeptAt(ps, n) == pos + [n - 1];
        assert Kept(ps, n) == vals + [ps[n - 1].value];
      } else {
        assert KeptAt(ps, n) == pos;
        assert Kept(ps, n) == vals;
      }
    }
  }

  /** Every position holding a value is among the kept positions. */
  lemma {:induction false} KeptAtComplete(ps: seq<Option<Question>>, n: nat)
    requires n <= |ps|
    ensures forall i :: 0 <= i < n && ps[i].Some? ==> i in KeptAt(ps, n)
  {
    if n > 0 {
      KeptAtComplete(ps, n - 1);
      assert KeptAt(ps, n - 1) <= KeptAt(ps, n);
    }
  }

  /** Two sequences with values at the same positions, with the same ids, keep the
      same ids. */
  lemma {:induction false} KeptIdsAlike(p1: seq<Option<Question>>, p2: seq<Option<Question>>, n: nat)
    requires n <= |p1| && n <= |p2|
    requires forall i :: 0 <= i < n ==> (p1[i].Some? <==> p2[i].Some?)
    requires forall i :: 0 <= i < n && p1[i].Some? && p2[i].Some? ==> p1[i].value.id == p2[i].value.id
    ensures Ids(Kept(p1, n)) == Ids(Kept(p2, n))
  {
    if n > 0 {
      KeptIdsAlike(p1, p2, n - 1);
      var e1: seq<Question> := if p1[n - 1].Some? then [p1[n - 1].value] else [];
      var e2: seq<Question> := if p2[n - 1].Some? then [p2[n - 1].value] else [];
      assert Kept(p1, n) == Kept(p1, n - 1) + e1 && Kept(p2, n) == Kept(p2, n - 1) + e2;
      assert Ids(e1) == Ids(e2);
      IdsAppend(Kept(p1, n - 1), e1);
      IdsAppend(Kept(p2, n - 1), e2);
    }
  }

  /** The records found on the first `n` lines, in line order. */
  function Records(lines: seq<string>, n: nat): seq<Question>
    requires n <= |lines|
  {
    Kept(LineResults(lines), n)
  }

  /** The indices of the lines among the first `n` that yield a record: one per
      record, increasing, below `n`. */
  ghost function Sources(lines: seq<string>, n: nat): (r: seq<nat>)
    requires n <= |lines|
    ensures |r| == |Records(lines, n)|
    ensures forall k :: 0 <= k < |r| ==> r[k] < n
    ensures forall j, k :: 0 <= j < k < |r| ==> r[j] < r[k]
  {
    KeptAt(LineResults(lines), n)
  }

  /** The bank the loader builds from the whole text. */
  function ParseBank(text: string): seq<Question> {
    var lines := SplitOn(text, '\n');
    Records(lines, |lines|)
  }

  /** What the loader yields, record by record: the `k`-th record is what the
      `k`-th source line makes of itself, and no source is the header. */
  lemma RecordsAtSources(lines: seq<string>, n: nat)
    requires n <= |lines|
    ensures forall k :: 0 <= k < |Sources(lines, n)| ==>
      ParseLine(lines[Sources(lines, n)[k]], Sources(lines, n)[k]) == Some(Records(lines, n)[k])
    ensures forall k :: 0 <= k < |Sources(lines, n)| ==> Sources(lines, n)[k] > 0
  {
    KeptAtPositions(LineResults(lines), n);
  }

  /** Exactly the qualifying lines after the header yield a record. */
  lemma SourcesComplete(lines: seq<string>, n: nat)
    requires n <= |lines|
    ensures forall i :: 0 <= i < n ==> (i in Sources(lines, n) <==> i > 0 && Qualifies(lines[i]))
  {
    KeptAtComplete(LineResults(lines), n);
    RecordsAtSources(lines, n);
  }

  /** Each record's id is `q-` and the index of the line it came from. */
  lemma RecordIds(lines: seq<string>, n: nat)
    requires n <= |lines|
    ensures forall k :: 0 <= k < |Records(lines, n)| ==>
      Records(lines, n)[k].id == IdFor(Sources(lines, n)[k])
  {
    RecordsAtSources(lines, n);
  }

  /** Ids are unique within a loaded bank, and the header line never gives one. */
  lemma RecordIdsUnique(lines: seq<string>, n: nat)
    requires n <= |lines|
    ensures UniqueIds(Records(lines, n))
    ensures forall k :: 0 <= k < |Records(lines, n)| ==> Records(lines, n)[k].id != IdFor(0)
  {
    RecordIds(lines, n);
    RecordsAtSources(lines, n);
    var r := Records(lines, n);
    var src := Sources(lines, n);
    forall i, j | 0 <= i < j < |r| ensures r[i].id != r[j].id {
      if r[i].id == r[j].id {
        IdForInjective(src[i], src[j]);
      }
    }
    forall k | 0 <= k < |r| ensures r[k].id != IdFor(0) {
      if r[k].id == IdFor(0) {
        IdForInjective(src[k], 0);
      }
    }
  }

  /** Ids depend only on which lines qualify: two texts whose lines qualify alike
      (the same text loaded twice, or a text whose questions were only reworded)
      give the same ids in the same order. */
  lemma StableIds(l1: seq<string>, l2: seq<string>, n: nat)
    requires n <= |l1| && n <= |l2|
    requires forall i :: 0 <= i < n ==> (Qualifies(l1[i]) <==> Qualifies(l2[i]))
    ensures Ids(Records(l1, n)) == Ids(Records(l2, n))
  {
    KeptIdsAlike(LineResults(l1), LineResults(l2), n);
  }

  /** The one lemma the whole-text loader needs: every record of `ParseBank` has a
      unique id that names a line after the header. */
  lemma ParseBankIds(text: string)
    ensures UniqueIds(ParseBank(text))
    ensures forall q :: q in ParseBank(text) ==> q.text != "" && q.id != IdFor(0)
  {
    var lines := SplitOn(text, '\n');
    RecordIdsUnique(lines, |lines|);
    RecordsAtSources(lines, |lines|);
  }

  /** The `forEach` of the mount effect: splits the text into lines and appends the
      record of every qualifying line after the header. */
  method LoadQuestions(text: string) returns (newQuestions: seq<Question>)
    ensures newQuestions == ParseBank(text)
  {
    var lines := SplitOn(text, '\n');
    newQuestions := [];
    var idx := 0;
    while idx < |lines|
      invariant 0 <= idx <= |lines|
      invariant newQuestions == Records(lines, idx)
    {
      assert LineResults(lines)[idx] == ParseLine(lines[idx], idx);
      var parts := Fields(lines[idx]);
      if |parts| >= 6 && idx > 0 {
        var correctKey := KeyOf(parts[5]);
        if Clean(parts[0]) != "" {
          newQuestions := newQuestions + [Question(IdFor(idx), Clean(parts[0]), Clean(parts[1]),
            Clean(parts[2]), Clean(parts[3]), Clean(parts[4]), correctKey)];
        }
      }
      idx := idx + 1;
    }
  }
}
