/** The summary shown after a batch (ui.py:339-347): the counters, then at
    most ten error lines and a count of the ones left out. */
module Report {
  import opened Text

  /** How many error lines the message lists. */
  const Shown: nat := 10

  predicate IsDigit(ch: char)
  {
    '0' <= ch <= '9'
  }

  function DigitChar(d: nat): (ch: char)
    requires d < 10
    ensures IsDigit(ch) && ch as int - '0' as int == d
  {
    ('0' as int + d) as char
  }

  /** Python's `str(n)` for a non-negative integer: its decimal digits,
      without leading zeros. */
  function Decimal(n: nat): (r: string)
    ensures 1 <= |r| && forall k :: 0 <= k < |r| ==> IsDigit(r[k])
    ensures r[0] == '0' ==> n == 0
    decreases n
  {
    if n < 10 then [DigitChar(n)] else Decimal(n / 10) + [DigitChar(n % 10)]
  }

  /** The number a string of decimal digits denotes. */
  function DigitsValue(s: string): nat
    requires forall k :: 0 <= k < |s| ==> IsDigit(s[k])
    decreases |s|
  {
    if |s| == 0 then 0
    else DigitsValue(s[..|s| - 1]) * 10 + DigitValue(s[|s| - 1])
  }

  function DigitValue(ch: char): nat
    requires IsDigit(ch)
  {
    ch as int - '0' as int
  }

  /** `str(n)` reads back as `n`. */
  lemma {:induction false} DecimalValue(n: nat)
    ensures DigitsValue(Decimal(n)) == n
    decreases n
  {
    if n >= 10 {
      DecimalValue(n / 10);
      var r := Decimal(n);
      assert r[..|r| - 1] == Decimal(n / 10);
    }
  }

  /** Python's `sep.join(xs)`. */
  function Join(xs: seq<string>, sep: string): string
    decreases |xs|
  {
    if |xs| == 0 then ""
    else if |xs| == 1 then xs[0]
    else xs[0] + sep + Join(xs[1..], sep)
  }

  /** Every item occurs in the joined text. */
  lemma {:induction false} JoinContains(xs: seq<string>, sep: string, k: nat)
    requires k < |xs|
    ensures Contains(Join(xs, sep), xs[k])
    decreases |xs|
  {
    if |xs| == 1 || k == 0 {
      assert At(xs[0], 0, xs[0]);
      ContainsAt(xs[0], 0, xs[0]);
      if |xs| > 1 {
        ContainsLeft(xs[0], sep + Join(xs[1..], sep), xs[0]);
        assert xs[0] + sep + Join(xs[1..], sep) == xs[0] + (sep + Join(xs[1..], sep));
      }
    } else {
      JoinContains(xs[1..], sep, k - 1);
      ContainsRight(xs[0] + sep, Join(xs[1..], sep), xs[k]);
    }
  }

  /** The joined text ends with the last item. */
  lemma {:induction false} JoinEndsWithLast(xs: seq<string>, sep: string)
    requires |xs| > 0
    ensures EndsWith(Join(xs, sep), xs[|xs| - 1])
    decreases |xs|
  {
    if |xs| > 1 {
      JoinEndsWithLast(xs[1..], sep);
      var j := Join(xs[1..], sep);
      var w := xs[|xs| - 1];
      assert (xs[0] + sep + j)[|xs[0] + sep + j| - |w|..] == j[|j| - |w|..];
    }
  }

  /** The first line: the two conversion counters. */
  function Summary(covers: nat, images: nat): string
  {
    "Converted " + Decimal(covers) + " cover(s) and " + Decimal(images) + " EPUB image(s) to baseline JPEG."
  }

  function SvgLine(svgFixed: nat): string
  {
    "\nFixed " + Decimal(svgFixed) + " SVG cover(s)."
  }

  function MetaLine(metasAdded: nat): string
  {
    "\nAdded " + Decimal(metasAdded) + " cover meta tag(s)."
  }

  function MoreLine(errorCount: nat): string
    requires errorCount > Shown
  {
    "\n... and " + Decimal(errorCount - Shown) + " more"
  }

  /** The last line reads back as the number of errors beyond the tenth. */
  lemma MoreLineCounts(errorCount: nat)
    requires errorCount > Shown
    ensures exists d ::
      && MoreLine(errorCount) == "\n... and " + d + " more"
      && (forall k :: 0 <= k < |d| ==> IsDigit(d[k]))
      && DigitsValue(d) + Shown == errorCount
  {
    DecimalValue(errorCount - Shown);
    var d := Decimal(errorCount - Shown);
    assert MoreLine(errorCount) == "\n... and " + d + " more";
  }

  /** The error part: nothing without errors, otherwise a header with the
      number of errors, the first ten of them one per line, and a line
      counting the rest when there are more than ten. */
  function ErrorSection(errors: seq<string>): (r: string)
    ensures r == "" <==> |errors| == 0
  {
    if |errors| == 0 then ""
    else
      var listed := if |errors| <= Shown then errors else errors[..Shown];
      "\n\nErrors (" + Decimal(|errors|) + "):\n" + Join(listed, "\n")
        + (if |errors| > Shown then MoreLine(|errors|) else "")
  }

  /** The message of ui.py:339-347. */
  function Message(covers: nat, images: nat, svgFixed: nat, metasAdded: nat, errors: seq<string>): (m: string)
    ensures Summary(covers, images) <= m
  {
    Summary(covers, images)
      + (if svgFixed > 0 then SvgLine(svgFixed) else "")
      + (if metasAdded > 0 then MetaLine(metasAdded) else "")
      + ErrorSection(errors)
  }

  /** Without errors the message is the counter lines alone, and the svg
      and meta lines appear exactly when their counters are positive. */
  lemma MessageWithoutErrors(covers: nat, images: nat, svgFixed: nat, metasAdded: nat)
    ensures var m := Message(covers, images, svgFixed, metasAdded, []);
      && (svgFixed == 0 && metasAdded == 0 ==> m == Summary(covers, images))
      && (svgFixed > 0 && metasAdded == 0 ==> m == Summary(covers, images) + SvgLine(svgFixed))
      && (svgFixed == 0 && metasAdded > 0 ==> m == Summary(covers, images) + MetaLine(metasAdded))
      && (svgFixed > 0 && metasAdded > 0 ==> m == Summary(covers, images) + SvgLine(svgFixed) + MetaLine(metasAdded))
      && (metasAdded > 0 ==> EndsWith(m, MetaLine(metasAdded)))
  {
    var s := Summary(covers, images);
    var svg := if svgFixed > 0 then SvgLine(svgFixed) else "";
    var meta := if metasAdded > 0 then MetaLine(metasAdded) else "";
    CounterLines(covers, images, svgFixed, metasAdded);
    if svgFixed == 0 {
      assert s + svg == s;
    }
    if metasAdded > 0 {
      assert EndsWith(meta, meta);
      EndsWithAppend(s + svg, meta, meta);
    }
  }

  /** Without errors the message is the counter lines.  This is `Message`
      unfolded for an empty error list, a proof step for
      `MessageWithoutErrors` rather than a property of its own. */
  lemma CounterLines(covers: nat, images: nat, svgFixed: nat, metasAdded: nat)
    ensures Message(covers, images, svgFixed, metasAdded, []) == Summary(covers, images)
      + (if svgFixed > 0 then SvgLine(svgFixed) else "")
      + (if metasAdded > 0 then MetaLine(metasAdded) else "")
  {
    assert ErrorSection([]) == "";
  }

  /** Every one of the first ten errors appears in the error part; with
      more than ten it ends by counting the errors beyond the tenth; with at
      most ten it ends with the last error. */
  lemma ErrorSectionLists(errors: seq<string>)
    requires |errors| > 0
    ensures var e := ErrorSection(errors);
      && (forall k :: 0 <= k < |errors| && k < Shown ==> Contains(e, errors[k]))
      && (|errors| > Shown ==> EndsWith(e, MoreLine(|errors|)))
      && (|errors| <= Shown ==> EndsWith(e, errors[|errors| - 1]))
  {
    var head := "\n\nErrors (" + Decimal(|errors|) + "):\n";
    var listed := if |errors| <= Shown then errors else errors[..Shown];
    var tail := if |errors| > Shown then MoreLine(|errors|) else "";
    var body := Join(listed, "\n");
    var e := ErrorSection(errors);
    assert e == head + body + tail;
    forall k | 0 <= k < |errors| && k < Shown
      ensures Contains(e, errors[k])
    {
      JoinContains(listed, "\n", k);
      ContainsRight(head, body, errors[k]);
      ContainsLeft(head + body, tail, errors[k]);
    }
    if |errors| > Shown {
      EndsWithAppend(head + body, tail, tail);
    } else {
      JoinEndsWithLast(listed, "\n");
      EndsWithAppend(head, body, errors[|errors| - 1]);
    }
  }

  /** The same for the whole message, whose error part comes last. */
  lemma MessageListsErrors(covers: nat, images: nat, svgFixed: nat, metasAdded: nat, errors: seq<string>)
    requires |errors| > 0
    ensures var m := Message(covers, images, svgFixed, metasAdded, errors);
      && (forall k :: 0 <= k < |errors| && k < Shown ==> Contains(m, errors[k]))
      && (|errors| > Shown ==> EndsWith(m, MoreLine(|errors|)))
      && (|errors| <= Shown ==> EndsWith(m, errors[|errors| - 1]))
  {
    var counts := Summary(covers, images)
      + (if svgFixed > 0 then SvgLine(svgFixed) else "")
      + (if metasAdded > 0 then MetaLine(metasAdded) else "");
    var e := ErrorSection(errors);
    ErrorSectionLists(errors);
    forall k | 0 <= k < |errors| && k < Shown
      ensures Contains(counts + e, errors[k])
    {
      ContainsRight(counts, e, errors[k]);
    }
    if |errors| > Shown {
      EndsWithAppend(counts, e, MoreLine(|errors|));
    } else {
      EndsWithAppend(counts, e, errors[|errors| - 1]);
    }
  }
}
