/** The reader's decimal-separator rewrite (`ReplaceDecimalSeparator`): the
    text of double and float columns is rewritten from the file's separator
    to the culture's, or handed to the culture's number round-trip in
    auto-detect mode.

    The source loops over every column mapping and rewrites the entry of
    each eligible one, so a source column mapped to two double or float
    destinations is rewritten twice.  The explicit rewrite is not idempotent,
    so the second pass corrupts the value.  `RewriteRowAsWritten` is that
    loop, and is what the reader does; `RewriteRow` rewrites each entry once,
    as evidently intended. */
module DecimalSeparator {
  import opened Wrappers
  import opened Model
  import Strings

  /** The reader's two settings, as `GetReader` chooses them. */
  datatype SeparatorSettings = SeparatorSettings(autoDetect: bool, decimalSeparator: Option<string>)

  /** The rewrite runs at all: auto-detect is on, or an explicit separator
      is set and not empty. */
  predicate Enabled(s: SeparatorSettings) {
    s.autoDetect || (s.decimalSeparator.Some? && s.decimalSeparator.value != "")
  }

  /** The explicit rewrite of one value: every culture separator is deleted,
      then every file separator becomes the culture separator. */
  function RewriteText(value: string, fileSeparator: NonEmptyString, cultureSeparator: NonEmptyString): string {
    Strings.ReplaceAll(Strings.ReplaceAll(value, cultureSeparator, ""), fileSeparator, cultureSeparator)
  }

  /** What one eligible, non-empty value becomes. */
  function RewriteValue(t: string, s: SeparatorSettings, c: ReaderCulture): string
    requires Enabled(s)
  {
    if s.autoDetect then c.reformatNumber(t)
    else if s.decimalSeparator.value != c.decimalSeparator then RewriteText(t, s.decimalSeparator.value, c.decimalSeparator)
    else t
  }

  /** A column mapping asks for the rewrite of its source column: it has a
      source, no script with a value, and a double or float destination. */
  predicate Eligible(cm: ColumnMapping) {
    && cm.source.Some? && !cm.hasScriptWithValue && cm.destination.Some?
    && (cm.destination.value.columnType == DoubleType || cm.destination.value.columnType == FloatType)
  }

  /** The source columns some eligible mapping asks to rewrite. */
  function TargetedKeys(cms: seq<ColumnMapping>): set<string> {
    set cm | cm in cms && Eligible(cm) :: cm.source.value.name
  }

  /** Rewrites, once, the non-empty string entries whose key is in `keys`. */
  function RewriteKeys(row: Row, keys: set<string>, s: SeparatorSettings, c: ReaderCulture): (r: Row)
    requires Enabled(s)
    ensures |r| == |row| && Keys(r) == Keys(row)
  {
    seq(|row|, i requires 0 <= i < |row| =>
      if row[i].0 in keys && row[i].1.Str? && row[i].1.text != "" then (row[i].0, Str(RewriteValue(row[i].1.text, s, c)))
      else row[i])
  }

  /** The rewrite as evidently intended: each entry of a targeted column
      that holds non-empty text is rewritten exactly once; null markers,
      empty strings and every other entry are left alone. */
  function RewriteRow(row: Row, cms: seq<ColumnMapping>, s: SeparatorSettings, c: ReaderCulture): Row {
    if !Enabled(s) then row else RewriteKeys(row, TargetedKeys(cms), s, c)
  }

  /** One turn of the source's loop, for mapping `cm`. */
  function RewriteStep(row: Row, cm: ColumnMapping, s: SeparatorSettings, c: ReaderCulture): Row
    requires Enabled(s)
  {
    if Eligible(cm) && HasKey(row, cm.source.value.name)
       && Get(row, cm.source.value.name).Str? && Get(row, cm.source.value.name).text != ""
    then Set(row, cm.source.value.name, Str(RewriteValue(Get(row, cm.source.value.name).text, s, c)))
    else row
  }

  function RewriteLoop(row: Row, cms: seq<ColumnMapping>, s: SeparatorSettings, c: ReaderCulture): Row
    requires Enabled(s)
    decreases |cms|
  {
    if cms == [] then row else RewriteLoop(RewriteStep(row, cms[0], s, c), cms[1..], s, c)
  }

  /** The source's loop: every eligible mapping rewrites its column's
      current value, even one an earlier mapping already rewrote. */
  function RewriteRowAsWritten(row: Row, cms: seq<ColumnMapping>, s: SeparatorSettings, c: ReaderCulture): Row {
    if !Enabled(s) then row else RewriteLoop(row, cms, s, c)
  }

  /** Reference definition of the explicit rewrite for one-character
      separators: the culture separator is dropped, the file separator
      becomes the culture separator, everything else stays. */
  function SwapSeparator(v: string, fileSeparator: char, cultureSeparator: char): string
    decreases |v|
  {
    if v == [] then []
    else
      var head := if v[0] == cultureSeparator then [] else if v[0] == fileSeparator then [cultureSeparator] else [v[0]];
      head + SwapSeparator(v[1..], fileSeparator, cultureSeparator)
  }

  lemma {:induction false} ReplaceCharAppend(a: string, b: string, c: char, r: string)
    ensures Strings.ReplaceChar(a + b, c, r) == Strings.ReplaceChar(a, c, r) + Strings.ReplaceChar(b, c, r)
    decreases |a|
  {
    if a != [] {
      assert (a + b)[0] == a[0];
      assert (a + b)[1..] == a[1..] + b;
      ReplaceCharAppend(a[1..], b, c, r);
    } else {
      assert a + b == b;
    }
  }

  lemma {:induction false} ReplaceTwiceIsSwap(v: string, f: char, c: char)
    requires f != c
    ensures Strings.ReplaceChar(Strings.ReplaceChar(v, c, ""), f, [c]) == SwapSeparator(v, f, c)
    decreases |v|
  {
    if v != [] {
      ReplaceTwiceIsSwap(v[1..], f, c);
      var head := if v[0] == c then "" else [v[0]];
      assert Strings.ReplaceChar(v, c, "") == head + Strings.ReplaceChar(v[1..], c, "");
      ReplaceCharAppend(head, Strings.ReplaceChar(v[1..], c, ""), f, [c]);
      if head != "" {
        assert Strings.ReplaceChar(head, f, [c]) == (if v[0] == f then [c] else [v[0]]) + Strings.ReplaceChar([], f, [c]);
      }
    }
  }

  /** With one-character separators that differ, the explicit rewrite is
      the character-by-character swap. */
  lemma RewriteTextIsSwap(v: string, f: char, c: char)
    requires f != c
    ensures RewriteText(v, [f], [c]) == SwapSeparator(v, f, c)
  {
    Strings.ReplaceAllOneChar(v, c, "");
    Strings.ReplaceAllOneChar(Strings.ReplaceChar(v, c, ""), f, [c]);
    ReplaceTwiceIsSwap(v, f, c);
  }

  /** Occurrences of `x` in `s`. */
  function Count(s: string, x: char): nat
    decreases |s|
  {
    if s == [] then 0 else (if s[0] == x then 1 else 0) + Count(s[1..], x)
  }

  /** After the swap no file separator is left, there are as many culture
      separators as there were file separators, and every other character
      keeps its count. */
  lemma {:induction false} SwapSeparatorCounts(v: string, f: char, c: char, d: char)
    requires f != c
    ensures f !in SwapSeparator(v, f, c)
    ensures Count(SwapSeparator(v, f, c), c) == Count(v, f)
    ensures d != f && d != c ==> Count(SwapSeparator(v, f, c), d) == Count(v, d)
    decreases |v|
  {
    if v != [] {
      SwapSeparatorCounts(v[1..], f, c, d);
      var rest := SwapSeparator(v[1..], f, c);
      if v[0] != c {
        var x := if v[0] == f then c else v[0];
        assert SwapSeparator(v, f, c) == [x] + rest;
        assert ([x] + rest)[1..] == rest;
        assert ([x] + rest)[0] == x;
      } else {
        assert SwapSeparator(v, f, c) == rest;
      }
    }
  }

  /** The explicit rewrite is not idempotent: a second pass deletes the
      separator the first pass put in. */
  lemma RewriteTextNotIdempotent()
    ensures RewriteText("19.99", ".", ",") == "19,99"
    ensures RewriteText(RewriteText("19.99", ".", ","), ".", ",") == "1999"
  {
    FirstPass();
    SecondPass();
  }

  lemma FirstPass()
    ensures RewriteText("19.99", ".", ",") == "19,99"
  {
    RewriteTextIsSwap("19.99", '.', ',');
  }

  lemma SecondPass()
    ensures RewriteText("19,99", ".", ",") == "1999"
  {
    RewriteTextIsSwap("19,99", '.', ',');
  }

  lemma RewriteStepIsRewriteKeys(row: Row, cm: ColumnMapping, s: SeparatorSettings, c: ReaderCulture)
    requires Enabled(s) && UniqueKeys(row)
    ensures RewriteStep(row, cm, s, c) == RewriteKeys(row, if Eligible(cm) then {cm.source.value.name} else {}, s, c)
  {
    var keys: set<string> := if Eligible(cm) then {cm.source.value.name} else {};
    var r := RewriteKeys(row, keys, s, c);
    if Eligible(cm) && HasKey(row, cm.source.value.name) {
      var k := cm.source.value.name;
      var at := IndexOf(row, k);
      forall i | 0 <= i < |row| && i != at
        ensures row[i].0 != k
      {
        if i < at { } else { assert row[at].0 != row[i].0; }
      }
      if Get(row, k).Str? && Get(row, k).text != "" {
        assert RewriteStep(row, cm, s, c) == r;
      } else {
        assert RewriteStep(row, cm, s, c) == r;
      }
    } else {
      assert RewriteStep(row, cm, s, c) == r;
    }
  }

  lemma RewriteKeysCompose(row: Row, a: set<string>, b: set<string>, s: SeparatorSettings, c: ReaderCulture)
    requires Enabled(s) && a !! b
    ensures RewriteKeys(RewriteKeys(row, a, s, c), b, s, c) == RewriteKeys(row, a + b, s, c)
  {
  }

  lemma RewriteKeysEmpty(row: Row, s: SeparatorSettings, c: ReaderCulture)
    requires Enabled(s)
    ensures RewriteKeys(row, {}, s, c) == row
  {
  }

  /** The two loops differ only where a column is targeted twice: when no
      two eligible mappings share a source column, the source's loop gives
      the once-per-entry rewrite. */
  lemma {:induction false} AsWrittenAgreesWhenSingleTarget(row: Row, cms: seq<ColumnMapping>, s: SeparatorSettings, c: ReaderCulture)
    requires UniqueKeys(row)
    requires forall i, j | 0 <= i < j < |cms| && Eligible(cms[i]) && Eligible(cms[j]) ::
      cms[i].source.value.name != cms[j].source.value.name
    ensures RewriteRowAsWritten(row, cms, s, c) == RewriteRow(row, cms, s, c)
    decreases |cms|
  {
    if Enabled(s) {
      if cms == [] {
        RewriteKeysEmpty(row, s, c);
      } else {
        var cm, rest := cms[0], cms[1..];
        var row1 := RewriteStep(row, cm, s, c);
        RewriteStepIsRewriteKeys(row, cm, s, c);
        assert UniqueKeys(row1) by {
          assert Keys(row1) == Keys(row);
          forall i, j | 0 <= i < j < |row1| ensures row1[i].0 != row1[j].0 {
            assert Keys(row1)[i] == Keys(row)[i] && Keys(row1)[j] == Keys(row)[j];
          }
        }
        assert forall i, j | 0 <= i < j < |rest| && Eligible(rest[i]) && Eligible(rest[j]) ::
          rest[i].source.value.name != rest[j].source.value.name by {
          forall i, j | 0 <= i < j < |rest| && Eligible(rest[i]) && Eligible(rest[j])
            ensures rest[i].source.value.name != rest[j].source.value.name
          {
            assert rest[i] == cms[i + 1] && rest[j] == cms[j + 1];
          }
        }
        AsWrittenAgreesWhenSingleTarget(row1, rest, s, c);
        var first: set<string> := if Eligible(cm) then {cm.source.value.name} else {};
        assert TargetedKeys(cms) == first + TargetedKeys(rest) by {
          forall k | k in TargetedKeys(cms) ensures k in first + TargetedKeys(rest) {
            var m :| m in cms && Eligible(m) && m.source.value.name == k;
            if m != cm {
              var i :| 0 <= i < |cms| && cms[i] == m;
              assert i > 0 && rest[i - 1] == m;
            }
          }
          forall k | k in TargetedKeys(rest) ensures k in TargetedKeys(cms) {
            var m :| m in rest && Eligible(m) && m.source.value.name == k;
            assert m in cms;
          }
        }
        assert first !! TargetedKeys(rest) by {
          if Eligible(cm) {
            forall m | m in rest && Eligible(m) ensures m.source.value.name != cm.source.value.name {
              var j :| 0 <= j < |rest| && rest[j] == m;
              assert cms[j + 1] == m;
            }
          }
        }
        RewriteKeysCompose(row, first, TargetedKeys(rest), s, c);
      }
    }
  }

  /** A price column mapped to a double and to a float destination. */
  const PriceToDouble := ColumnMapping(true, Some(Column("Price", StringType, "Products")), Some(Column("Price", DoubleType, "Shop")), false)
  const PriceToFloat := ColumnMapping(true, Some(Column("Price", StringType, "Products")), Some(Column("PriceF", FloatType, "Shop")), false)
  /** File separator "." read in a culture whose separator is ",". */
  const DotFile := SeparatorSettings(false, Some("."))

  lemma PriceStep(c: ReaderCulture, cm: ColumnMapping, before: string, after: string)
    requires c.decimalSeparator == "," && cm in [PriceToDouble, PriceToFloat]
    requires before != "" && RewriteText(before, ".", ",") == after
    ensures RewriteStep([("Price", Str(before))], cm, DotFile, c) == [("Price", Str(after))]
  {
    var row := [("Price", Str(before))];
    assert row[0].0 == "Price" && HasKey(row, "Price");
  }

  /** With the price column targeted twice, file separator "." and culture
      separator ",", the source's loop turns "19.99" into "1999", the
      once-per-entry rewrite into "19,99". */
  lemma DoubleTargetCorruptsValue(c: ReaderCulture)
    requires c.decimalSeparator == ","
    ensures RewriteRowAsWritten([("Price", Str("19.99"))], [PriceToDouble, PriceToFloat], DotFile, c) == [("Price", Str("1999"))]
    ensures RewriteRow([("Price", Str("19.99"))], [PriceToDouble, PriceToFloat], DotFile, c) == [("Price", Str("19,99"))]
  {
    DoubleTargetAsWritten(c);
    DoubleTargetCorrected(c);
  }

  lemma DoubleTargetAsWritten(c: ReaderCulture)
    requires c.decimalSeparator == ","
    ensures RewriteRowAsWritten([("Price", Str("19.99"))], [PriceToDouble, PriceToFloat], DotFile, c) == [("Price", Str("1999"))]
  {
    var cms := [PriceToDouble, PriceToFloat];
    RewriteTextNotIdempotent();
    PriceStep(c, PriceToDouble, "19.99", "19,99");
    PriceStep(c, PriceToFloat, "19,99", "1999");
    assert RewriteLoop([("Price", Str("19.99"))], cms, DotFile, c) == RewriteLoop([("Price", Str("19,99"))], cms[1..], DotFile, c);
  }

  lemma DoubleTargetCorrected(c: ReaderCulture)
    requires c.decimalSeparator == ","
    ensures RewriteRow([("Price", Str("19.99"))], [PriceToDouble, PriceToFloat], DotFile, c) == [("Price", Str("19,99"))]
  {
    var cms := [PriceToDouble, PriceToFloat];
    FirstPass();
    assert TargetedKeys(cms) == {"Price"} by {
      assert cms[0] in cms && Eligible(cms[0]);
    }
  }

  /** An explicit separator equal to the culture's changes nothing. */
  lemma {:induction false} SameSeparatorChangesNothing(row: Row, cms: seq<ColumnMapping>, s: SeparatorSettings, c: ReaderCulture)
    requires !s.autoDetect && s.decimalSeparator == Some(c.decimalSeparator)
    ensures RewriteRowAsWritten(row, cms, s, c) == row
    decreases |cms|
  {
    if cms != [] {
      assert RewriteStep(row, cms[0], s, c) == row;
      SameSeparatorChangesNothing(row, cms[1..], s, c);
    }
  }

  /** Neither the source's loop nor the off switch changes the keys or
      their order. */
  lemma {:induction false} RewriteLoopKeys(row: Row, cms: seq<ColumnMapping>, s: SeparatorSettings, c: ReaderCulture)
    ensures Keys(RewriteRowAsWritten(row, cms, s, c)) == Keys(row)
    decreases |cms|
  {
    if Enabled(s) && cms != [] {
      RewriteLoopKeys(RewriteStep(row, cms[0], s, c), cms[1..], s, c);
    }
  }

  /** The source's loop leaves alone every entry whose column no eligible
      mapping targets, and every entry that is not non-empty text. */
  lemma {:induction false} RewriteLoopLeavesOthers(row: Row, cms: seq<ColumnMapping>, s: SeparatorSettings, c: ReaderCulture, i: int)
    requires 0 <= i < |row| && UniqueKeys(row)
    requires row[i].0 !in TargetedKeys(cms) || !row[i].1.Str? || row[i].1.text == ""
    ensures |RewriteRowAsWritten(row, cms, s, c)| == |row| && RewriteRowAsWritten(row, cms, s, c)[i] == row[i]
    decreases |cms|
  {
    RewriteLoopKeys(row, cms, s, c);
    if Enabled(s) && cms != [] {
      var row1 := RewriteStep(row, cms[0], s, c);
      assert row1[i] == row[i] by {
        if Eligible(cms[0]) && HasKey(row, cms[0].source.value.name) {
          var k := cms[0].source.value.name;
          var at := IndexOf(row, k);
          if i != at {
            assert row1[i] == row[i];
          } else {
            assert k in TargetedKeys(cms);
          }
        }
      }
      RewriteLoopKeys(row, [cms[0]], s, c);
      assert Keys(row1) == Keys(row);
      assert UniqueKeys(row1) by {
        forall a, b | 0 <= a < b < |row1| ensures row1[a].0 != row1[b].0 {
          assert Keys(row1)[a] == Keys(row)[a] && Keys(row1)[b] == Keys(row)[b];
        }
      }
      assert TargetedKeys(cms[1..]) <= TargetedKeys(cms) by {
        forall k | k in TargetedKeys(cms[1..]) ensures k in TargetedKeys(cms) {
          var m :| m in cms[1..] && Eligible(m) && m.source.value.name == k;
          assert m in cms;
        }
      }
      RewriteLoopLeavesOthers(row1, cms[1..], s, c, i);
    }
  }
}
