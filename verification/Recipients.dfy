/** The recipient list as text: one splitter, and two ways of joining that it undoes. */
module Recipients {
  import opened Trimming

  /** strings.Split by a comma: the parts between the commas, empty ones included. */
  function Split(s: string): (parts: seq<string>)
    ensures parts != []
  {
    if s == [] then [""]
    else
      var rest := Split(s[1..]);
      if s[0] == ',' then [""] + rest else [[s[0]] + rest[0]] + rest[1..]
  }

  function Join(parts: seq<string>, separator: string): string {
    if parts == [] then ""
    else if |parts| == 1 then parts[0]
    else parts[0] + separator + Join(parts[1..], separator)
  }

  /** The trimmed parts that are not empty. */
  function Cleaned(parts: seq<string>): seq<string> {
    if parts == [] then []
    else
      var e := TrimSpace(parts[|parts| - 1]);
      Cleaned(parts[..|parts| - 1]) + if e != "" then [e] else []
  }

  function Recipients(raw: string): seq<string> {
    if TrimSpace(raw) == "" then [] else Cleaned(Split(TrimSpace(raw)))
  }

  // ----- Splitting and joining -----

  ghost predicate CommaFree(parts: seq<string>) {
    forall p :: p in parts ==> ',' !in p
  }

  /** The parts contain no comma, and joined by commas they are the text again. */
  lemma {:induction false} JoinOfSplit(s: string)
    ensures CommaFree(Split(s)) && Join(Split(s), ",") == s
  {
    if s != [] {
      JoinOfSplit(s[1..]);
      var rest := Split(s[1..]);
      if s[0] == ',' {
        assert ([""] + rest)[1..] == rest;
      } else {
        var parts := [[s[0]] + rest[0]] + rest[1..];
        assert rest == [rest[0]] + rest[1..];
        assert parts[1..] == rest[1..];
      }
      assert s == [s[0]] + s[1..];
    }
  }

  lemma {:induction false} SplitAfterPart(p: string, rest: string)
    requires ',' !in p
    ensures Split(p + "," + rest) == [p] + Split(rest)
  {
    var s := p + "," + rest;
    if p == [] {
      assert s[1..] == rest;
    } else {
      SplitAfterPart(p[1..], rest);
      assert s[1..] == p[1..] + "," + rest;
      assert [p[0]] + p[1..] == p;
    }
  }

  lemma {:induction false} SplitOfPart(p: string)
    requires ',' !in p
    ensures Split(p) == [p]
  {
    if p != [] {
      SplitOfPart(p[1..]);
      assert [p[0]] + p[1..] == p;
    }
  }

  /** Every separator is a comma and `gap`; the gap then leads each part but the first. */
  function WithGaps(parts: seq<string>, gap: string): (r: seq<string>)
    ensures |r| == |parts|
  {
    if parts == [] then [] else [gap + parts[0]] + WithGaps(parts[1..], gap)
  }

  /** Text without commas in front goes to the first part. */
  lemma {:induction false} SplitWithLead(lead: string, s: string)
    requires ',' !in lead
    ensures Split(lead + s) == [lead + Split(s)[0]] + Split(s)[1..]
  {
    if lead == [] {
      assert lead + s == s && lead + Split(s)[0] == Split(s)[0];
      assert Split(s) == [Split(s)[0]] + Split(s)[1..];
    } else {
      SplitWithLead(lead[1..], s);
      assert (lead + s)[1..] == lead[1..] + s;
      assert [lead[0]] + (lead[1..] + Split(s)[0]) == lead + Split(s)[0];
    }
  }

  lemma {:induction false} SplitOfJoin(parts: seq<string>, gap: string)
    requires parts != [] && CommaFree(parts) && ',' !in gap
    ensures Split(Join(parts, "," + gap)) == [parts[0]] + WithGaps(parts[1..], gap)
  {
    if |parts| == 1 {
      SplitOfPart(parts[0]);
    } else {
      var rest := parts[1..];
      SplitOfJoin(rest, gap);
      var joined := Join(rest, "," + gap);
      assert parts[0] + ("," + gap) + joined == parts[0] + "," + (gap + joined);
      SplitAfterPart(parts[0], gap + joined);
      SplitWithLead(gap, joined);
      assert [gap + rest[0]] + WithGaps(rest[1..], gap) == WithGaps(rest, gap);
    }
  }

  // ----- The list -----

  /** What every recipient looks like. */
  ghost predicate ProperList(items: seq<string>) {
    forall e :: e in items ==> e != "" && Trimmed(e) && ',' !in e
  }

  lemma {:induction false} CleanedIsProper(parts: seq<string>)
    requires CommaFree(parts)
    ensures ProperList(Cleaned(parts))
  {
    if parts != [] {
      CleanedIsProper(parts[..|parts| - 1]);
      TrimSpaceIsTrimmed(parts[|parts| - 1]);
    }
  }

  /** Whatever was entered, the items are trimmed, not empty and free of commas. */
  lemma RecipientsAreProper(raw: string)
    ensures ProperList(Recipients(raw))
  {
    JoinOfSplit(TrimSpace(raw));
    CleanedIsProper(Split(TrimSpace(raw)));
  }

  lemma {:induction false} CleanedConcat(a: seq<string>, b: seq<string>)
    ensures Cleaned(a + b) == Cleaned(a) + Cleaned(b)
  {
    if b == [] {
      assert a + b == a;
    } else {
      assert (a + b)[..|a + b| - 1] == a + b[..|b| - 1];
      CleanedConcat(a, b[..|b| - 1]);
    }
  }

  lemma CleanedOne(p: string, item: string)
    requires item != "" && TrimSpace(p) == item
    ensures Cleaned([p]) == [item]
  {
    assert [p][..0] == [];
  }

  lemma {:induction false} CleanedWithGaps(items: seq<string>, gap: string)
    requires ProperList(items) && gap in {"", " "}
    ensures Cleaned(WithGaps(items, gap)) == items
  {
    if items != [] {
      TrimOfTrimmed(items[0]);
      assert "" + items[0] == items[0];
      CleanedOne(gap + items[0], items[0]);
      CleanedWithGaps(items[1..], gap);
      CleanedConcat([gap + items[0]], WithGaps(items[1..], gap));
    }
  }

  lemma JoinedEnds(first: string, middle: string, last: string)
    requires first != "" && last != "" && Trimmed(first) && Trimmed(last)
    ensures Trimmed(first + middle + last)
  {
    var s := first + middle + last;
    assert s[0] == first[0] && s[|s| - 1] == last[|last| - 1];
  }

  lemma {:induction false} JoinEnds(items: seq<string>, separator: string)
    requires items != [] && ProperList(items)
    ensures Join(items, separator) != "" && Trimmed(Join(items, separator))
  {
    assert items[0] in items;
    if |items| > 1 {
      var rest := items[1..];
      assert forall e :: e in rest ==> e in items;
      JoinEnds(rest, separator);
      JoinedEnds(items[0], separator, Join(rest, separator));
    }
  }

  lemma CleanedSplit(items: seq<string>, gap: string)
    requires items != [] && ProperList(items) && gap in {"", " "}
    ensures Cleaned([items[0]] + WithGaps(items[1..], gap)) == items
  {
    var rest := items[1..];
    assert items[0] in items && forall e :: e in rest ==> e in items;
    TrimOfTrimmed(items[0]);
    CleanedOne(items[0], items[0]);
    CleanedWithGaps(rest, gap);
    CleanedConcat([items[0]], WithGaps(rest, gap));
    assert [items[0]] + rest == items;
  }

  /** Joining with a comma, or with a comma and a blank, and splitting again gives the list back. */
  lemma SplitUndoesJoin(items: seq<string>, gap: string)
    requires ProperList(items) && gap in {"", " "}
    ensures Recipients(Join(items, "," + gap)) == items
  {
    if items != [] {
      var joined := Join(items, "," + gap);
      JoinEnds(items, "," + gap);
      TrimOfTrimmed(joined);
      SplitOfJoin(items, gap);
      CleanedSplit(items, gap);
    }
  }

  /** Saving what was entered and loading it keeps the list, and so does submitting the form again
      as it was shown, any number of times. */
  lemma SavedAndShownListsAgree(raw: string)
    ensures Recipients(Join(Recipients(raw), ",")) == Recipients(raw)
    ensures Recipients(Join(Recipients(raw), ", ")) == Recipients(raw)
  {
    RecipientsAreProper(raw);
    SplitUndoesJoin(Recipients(raw), "");
    SplitUndoesJoin(Recipients(raw), " ");
    assert "," + "" == "," && "," + " " == ", ";
  }

  // ----- Spaces around the items -----

  /** The list with text added to its last part. */
  function Extended(parts: seq<string>, tail: string): (r: seq<string>)
    requires parts != []
    ensures r != []
  {
    parts[..|parts| - 1] + [parts[|parts| - 1] + tail]
  }

  lemma ExtendAfterEmpty(rest: seq<string>, tail: string)
    requires rest != []
    ensures Extended([""] + rest, tail) == [""] + Extended(rest, tail)
  {
  }

  lemma ExtendAfterChar(c: char, rest: seq<string>, tail: string)
    requires rest != []
    ensures Extended([[c] + rest[0]] + rest[1..], tail)
            == [[c] + Extended(rest, tail)[0]] + Extended(rest, tail)[1..]
  {
    if |rest| == 1 {
      assert [c] + (rest[0] + tail) == [c] + rest[0] + tail;
    }
  }

  lemma {:induction false} SplitWithTail(s: string, tail: string)
    requires ',' !in tail
    ensures Split(s + tail) == Extended(Split(s), tail)
  {
    if s == "" {
      assert s + tail == tail && "" + tail == tail;
      SplitOfPart(tail);
    } else {
      SplitWithTail(s[1..], tail);
      assert (s + tail)[1..] == s[1..] + tail;
      ExtendAfterEmpty(Split(s[1..]), tail);
      ExtendAfterChar(s[0], Split(s[1..]), tail);
    }
  }

  lemma TrimSpaceIgnores(lead: string, s: string, tail: string)
    requires AllSpace(lead) && AllSpace(tail)
    ensures TrimSpace(lead + s + tail) == TrimSpace(s)
  {
    var left, right := TrimSpaceRemoves(s);
    TrimSpaceIsTrimmed(s);
    assert lead + s + tail == (lead + left) + TrimSpace(s) + (right + tail);
    TrimSpaceOfPadded(lead + left, TrimSpace(s), right + tail);
  }

  lemma CleanedIgnoresLead(lead: string, parts: seq<string>)
    requires AllSpace(lead) && parts != []
    ensures Cleaned([lead + parts[0]] + parts[1..]) == Cleaned(parts)
  {
    assert lead + parts[0] + "" == lead + parts[0];
    TrimSpaceIgnores(lead, parts[0], "");
    assert [lead + parts[0]][..0] == [] && [parts[0]][..0] == [];
    CleanedConcat([lead + parts[0]], parts[1..]);
    CleanedConcat([parts[0]], parts[1..]);
    assert [parts[0]] + parts[1..] == parts;
  }

  lemma CleanedIgnoresTail(parts: seq<string>, tail: string)
    requires AllSpace(tail) && parts != []
    ensures Cleaned(Extended(parts, tail)) == Cleaned(parts)
  {
    var last := parts[|parts| - 1];
    assert "" + last + tail == last + tail;
    TrimSpaceIgnores("", last, tail);
    assert Extended(parts, tail)[..|parts| - 1] == parts[..|parts| - 1];
  }

  lemma SpaceHasNoComma(s: string)
    requires AllSpace(s)
    ensures ',' !in s
  {
  }

  /** Trimming the whole text first makes no difference to the list. */
  lemma RecipientsOfSplit(raw: string)
    ensures Recipients(raw) == Cleaned(Split(raw))
  {
    var left, right := TrimSpaceRemoves(raw);
    var core := TrimSpace(raw);
    SpaceHasNoComma(left);
    SpaceHasNoComma(right);
    assert raw == left + (core + right);
    SplitWithLead(left, core + right);
    SplitWithTail(core, right);
    CleanedIgnoresLead(left, Split(core + right));
    CleanedIgnoresTail(Split(core), right);
    if core == "" {
      assert Split(core) == [""] && [""][..0] == [] && TrimSpace("") == "";
      assert Cleaned([""]) == [];
    }
  }

  ghost function NonEmpty(items: seq<string>): seq<string> {
    if items == [] then [] else (if items[0] == "" then [] else [items[0]]) + NonEmpty(items[1..])
  }

  /** Each part is a comma-free item with spaces around it. */
  ghost predicate Padding(parts: seq<string>, items: seq<string>) {
    && 0 < |parts| == |items|
    && forall i :: 0 <= i < |parts| ==> ',' !in items[i] && Pads(parts[i], items[i])
  }

  lemma {:induction false} CleanedOfPadded(parts: seq<string>, items: seq<string>)
    requires |parts| == |items| && forall i :: 0 <= i < |parts| ==> TrimSpace(parts[i]) == items[i]
    ensures Cleaned(parts) == NonEmpty(items)
  {
    if parts != [] {
      CleanedOfPadded(parts[1..], items[1..]);
      assert [parts[0]][..0] == [] && parts == [parts[0]] + parts[1..];
      CleanedConcat([parts[0]], parts[1..]);
    }
  }

  lemma PaddedIsCommaFree(part: string, item: string)
    requires ',' !in item && Pads(part, item)
    ensures ',' !in part
  {
  }

  lemma {:induction false} NoGaps(parts: seq<string>)
    ensures WithGaps(parts, "") == parts
  {
    if parts != [] {
      NoGaps(parts[1..]);
      assert "" + parts[0] == parts[0] && parts == [parts[0]] + parts[1..];
    }
  }

  lemma RecipientsOfPadded(parts: seq<string>, items: seq<string>)
    requires Padding(parts, items)
    ensures Recipients(Join(parts, ",")) == NonEmpty(items)
  {
    forall i | 0 <= i < |parts|
      ensures ',' !in parts[i] && TrimSpace(parts[i]) == items[i]
    {
      PaddedIsCommaFree(parts[i], items[i]);
      TrimSpaceExactly(parts[i], items[i]);
    }
    RecipientsOfSplit(Join(parts, ","));
    assert "," + "" == ",";
    SplitOfJoin(parts, "");
    NoGaps(parts[1..]);
    assert [parts[0]] + parts[1..] == parts;
    CleanedOfPadded(parts, items);
  }

  /** Every text is such a list of padded items. */
  lemma EveryTextIsPadded(raw: string) returns (parts: seq<string>, items: seq<string>)
    ensures raw == Join(parts, ",") && Padding(parts, items)
  {
    parts := Split(raw);
    JoinOfSplit(raw);
    items := seq(|parts|, i requires 0 <= i < |parts| => TrimSpace(parts[i]));
    forall i | 0 <= i < |parts|
      ensures ',' !in items[i] && Pads(parts[i], items[i])
    {
      TrimSpaceExactly(parts[i], items[i]);
      TrimSpaceIsTrimmed(parts[i]);
    }
  }

  /** The appending loop.  Whenever the text consists of items with spaces around them, separated by
      commas, the result is the items that are not empty, in order. */
  method SplitEmails(raw: string) returns (out: seq<string>)
    ensures out == Recipients(raw)
    ensures forall parts, items :: raw == Join(parts, ",") && Padding(parts, items) ==> out == NonEmpty(items)
  {
    forall parts, items | Padding(parts, items) {
      RecipientsOfPadded(parts, items);
    }
    var trimmed := TrimSpace(raw);
    if trimmed == "" {
      return [];
    }
    var parts := Split(trimmed);
    out := [];
    for i := 0 to |parts|
      invariant out == Cleaned(parts[..i])
    {
      assert parts[..i + 1][..i] == parts[..i];
      var e := TrimSpace(parts[i]);
      if e != "" {
        out := out + [e];
      }
    }
    assert parts[..|parts|] == parts;
  }
}
