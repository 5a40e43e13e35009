/** `review_mistakes`: the summary shown on the review page, rendered from
    every row of the mistakes table. */
module Review {
  import opened Strings
  import opened Decimal
  import opened MistakeStore

  const NoMistakes: string := "\U{1F389} No mistakes recorded. Excellent work!"
  const Heading: string := "\U{1F4DD} **Mistake Review:**\n\n"
  const VerbFocus: string := "**Focus Area:** Verb conjugation and vocabulary improvement."
  const KeepPracticing: string := "**Focus Area:** Keep practicing!"

  /** One numbered entry of the review: the index, a period, what the user
      said, the mistake and its correction. */
  function EntryText(index: nat, e: Entry): (text: string)
    ensures |text| > |Show(index)| && text[..|Show(index)|] == Show(index) && text[|Show(index)|] == '.'
  {
    Show(index) + ". **You said:** '" + e.userInput + "'\n   **Mistake:** '" + e.mistake
      + "' \U{2794} **Correction:** '" + e.correction + "'\n\n"
  }

  /** The entries for `entries`, numbered on from `first` as `enumerate`
      numbers them: the `i`-th entry renders `entries[i]` under number
      `first + i`. */
  function Numbered(entries: seq<Entry>, first: nat): (texts: seq<string>)
    ensures |texts| == |entries|
    ensures forall i :: 0 <= i < |entries| ==> texts[i] == EntryText(first + i, entries[i])
    decreases |entries|
  {
    if entries == [] then [] else [EntryText(first, entries[0])] + Numbered(entries[1..], first + 1)
  }

  /** The texts one after the other, as repeated `+=` builds them. */
  function Concat(texts: seq<string>): string
    decreases |texts|
  {
    if texts == [] then "" else Concat(texts[..|texts| - 1]) + texts[|texts| - 1]
  }

  /** The closing advice, chosen by the number of rows. */
  function Focus(count: nat): string
  {
    if count > 2 then VerbFocus else KeepPracticing
  }

  predicate EndsWith(s: string, suffix: string)
  {
    |suffix| <= |s| && s[|s| - |suffix|..] == suffix
  }

  /** A non-empty review around the text of its entries. */
  function Frame(body: string, count: nat): string
  {
    Heading + body + "\n\n" + Focus(count)
  }

  /** `review_mistakes(conn)` on the rows of the table. */
  function ReviewMistakes(store: Store): string
  {
    var entries := SelectAll(store);
    if entries == [] then NoMistakes
    else Frame(Concat(Numbered(entries, 1)), |entries|)
  }

  /** The fixed message appears exactly when there are no rows; otherwise
      the review opens with its heading. */
  lemma NoMistakesIffEmpty(store: Store)
    ensures ReviewMistakes(store) == NoMistakes <==> store == []
    ensures store != [] ==> |Heading| <= |ReviewMistakes(store)| && ReviewMistakes(store)[..|Heading|] == Heading
  {
    if store != [] {
      FrameOpensWithHeading(Concat(Numbered(SelectAll(store), 1)), |store|);
    }
  }

  lemma FrameOpensWithHeading(body: string, count: nat)
    ensures |Heading| <= |Frame(body, count)| && Frame(body, count)[..|Heading|] == Heading
    ensures Frame(body, count) != NoMistakes
  {
    var text := Frame(body, count);
    assert text[0] == Heading[0] != NoMistakes[0];
  }

  /** The review ends with the verb-conjugation advice exactly when more
      than two rows were logged. */
  lemma FocusIffMoreThanTwo(store: Store)
    ensures EndsWith(ReviewMistakes(store), VerbFocus) <==> |store| > 2
  {
    var text := ReviewMistakes(store);
    if store == [] {
      assert text[|text| - 1] == '!';
    } else {
      var focus := Focus(|store|);
      assert text[|text| - 1] == focus[|focus| - 1];
      assert text[|text| - |focus|..] == focus;
    }
  }

  /** A concatenation splits around any one of its texts. */
  lemma {:induction false} ConcatAround(texts: seq<string>, i: nat)
    requires i < |texts|
    ensures Concat(texts) == Concat(texts[..i]) + texts[i] + Concat(texts[i + 1..])
    decreases |texts|
  {
    var n := |texts|;
    if i == n - 1 {
      assert texts[i + 1..] == [];
      assert texts[..n - 1] == texts[..i];
    } else {
      var init := texts[..n - 1];
      ConcatAround(init, i);
      assert init[..i] == texts[..i] && init[i] == texts[i];
      var mid := texts[i + 1..];
      assert mid[..|mid| - 1] == init[i + 1..];
      assert mid[|mid| - 1] == texts[n - 1];
    }
  }

  lemma ConcatAppend(texts: seq<string>, t: string)
    ensures Concat(texts + [t]) == Concat(texts) + t
  {
    assert (texts + [t])[..|texts|] == texts;
  }

  /** The shape of a non-empty review. */
  lemma ReviewLayout(store: Store)
    requires store != []
    ensures ReviewMistakes(store) == Heading + Concat(Numbered(SelectAll(store), 1)) + "\n\n" + Focus(|store|)
  {
  }

  /** The `i`-th row of the table is rendered as entry number `i + 1`, at
      the place right after the entries of the rows before it. */
  lemma RowRenderedInPlace(store: Store, i: nat)
    requires i < |store|
    ensures OccursAt(ReviewMistakes(store), EntryText(i + 1, Project(store[i])),
                     |Heading| + |Concat(Numbered(SelectAll(store), 1)[..i])|)
  {
    var texts := Numbered(SelectAll(store), 1);
    var before := Concat(texts[..i]);
    var entry := texts[i];
    var after := Concat(texts[i + 1..]);
    assert ReviewMistakes(store) == (Heading + before) + entry + (after + "\n\n" + Focus(|store|)) by {
      ReviewLayout(store);
      ConcatAround(texts, i);
      Regroup(Heading, before, entry, after, "\n\n", Focus(|store|));
    }
    SliceOfConcat(Heading + before, entry, after + "\n\n" + Focus(|store|));
  }

  lemma Regroup(h: string, a: string, e: string, c: string, n: string, f: string)
    ensures h + (a + e + c) + n + f == (h + a) + e + (c + n + f)
  {
  }

  lemma SliceOfConcat(a: string, b: string, c: string)
    ensures (a + b + c)[|a|..|a| + |b|] == b
  {
  }

  /** Numbering one more entry continues the numbering. */
  lemma NumberedAppend(entries: seq<Entry>, e: Entry, first: nat)
    ensures Numbered(entries + [e], first) == Numbered(entries, first) + [EntryText(first + |entries|, e)]
  {
    var grown := Numbered(entries + [e], first);
    var expected := Numbered(entries, first) + [EntryText(first + |entries|, e)];
    assert |grown| == |expected|;
    forall i | 0 <= i < |grown|
      ensures grown[i] == expected[i]
    {
      if i < |entries| {
        assert (entries + [e])[i] == entries[i];
      }
    }
  }

  /** The entries after an insert: the old ones, then the new one. */
  lemma EntriesAfterInsert(store: Store, rec: Record)
    ensures Concat(Numbered(SelectAll(Insert(store, rec)), 1))
      == Concat(Numbered(SelectAll(store), 1)) + EntryText(|store| + 1, Entry(rec.userInput, rec.mistake, rec.correction))
  {
    var e := Entry(rec.userInput, rec.mistake, rec.correction);
    SelectAfterInsert(store, rec);
    NumberedAppend(SelectAll(store), e, 1);
    ConcatAppend(Numbered(SelectAll(store), 1), EntryText(|store| + 1, e));
  }

  /** Logging one more mistake adds one entry, numbered one past the old
      row count, behind all earlier entries, and re-chooses the advice for
      the new count. */
  lemma ReviewAfterInsert(store: Store, rec: Record)
    ensures ReviewMistakes(Insert(store, rec))
      == Frame(Concat(Numbered(SelectAll(store), 1))
               + EntryText(|store| + 1, Entry(rec.userInput, rec.mistake, rec.correction)), |store| + 1)
  {
    EntriesAfterInsert(store, rec);
  }

  /** The number in front of an entry reads back as the entry's index. */
  lemma EntryNumberReadsBack(index: nat, e: Entry)
    ensures var head := Split(EntryText(index, e), ".")[0];
      (forall i :: 0 <= i < |head| ==> IsDigit(head[i])) && Read(head) == index
  {
    var digits := Show(index);
    var rest := EntryText(index, e)[|digits| + 1..];
    assert EntryText(index, e) == digits + "." + rest;
    HeadAbsent(digits, ".");
    SplitAfterFreeHead(digits, rest, ".");
    ReadShow(index);
  }
}
