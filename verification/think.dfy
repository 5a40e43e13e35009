/** `clean_response`: the reasoning blocks a model wraps in `<think>` …
    `</think>` are cut out of a reply and the rest is stripped of
    surrounding whitespace. The cut is the substitution of the lazy,
    dot-matches-newline pattern `<think>.*?</think>` by the empty string. */
module ThinkTags {
  import opened Strings
  import opened Trim

  const Open: string := "<think>"
  const Close: string := "</think>"

  lemma TagsHaveUniqueHeads()
    ensures UniqueHead(Open) && UniqueHead(Close)
  {
  }

  /** The regular-expression substitution. The leftmost match starts at the
      first `<think>`, because the first tag has every `</think>` that any
      later tag has; the lazy `.*?` ends it at the nearest `</think>` after
      that tag; scanning then resumes behind the match. When the first tag
      is never closed nothing matches and the text is kept whole. */
  function StripThink(s: string): (r: string)
    ensures |r| <= |s|
    ensures !Contains(s, Open) ==> r == s
    decreases |s|
  {
    match IndexOf(s, Open)
    case None => s
    case Some(p) =>
      var after := s[p + |Open|..];
      match IndexOf(after, Close)
      case None => s
      case Some(q) => s[..p] + StripThink(after[q + |Close|..])
  }

  /** `clean_response(text)`. */
  function CleanResponse(text: string): (r: string)
    ensures Trimmed(r)
    ensures |r| <= |text|
    ensures !Contains(text, Open) ==> r == Strip(text)
  {
    var kept := StripThink(text);
    assert |Strip(kept)| <= |kept| by {
      assert OccursAt(kept, Strip(kept), LeadingSpaces(kept));
    }
    Strip(kept)
  }

  /** The first block is cut: text with no tag, a tag, text with no closing
      tag, the nearest closing tag, and whatever follows — only the first
      text survives, and the rest is processed on its own. */
  lemma FirstBlockRemoved(a: string, m: string, b: string)
    requires !Contains(a, Open)
    requires !Contains(m, Close)
    ensures StripThink(a + Open + m + Close + b) == a + StripThink(b)
  {
    TagsHaveUniqueHeads();
    var s := a + Open + m + Close + b;
    assert s == a + Open + (m + Close + b);
    FirstOccurrenceAfter(a, Open, m + Close + b);
    ConcatSlices(a, Open, m + Close + b);
    var after := s[|a| + |Open|..];
    assert after == m + Close + b;
    FirstOccurrenceAfter(m, Close, b);
    ConcatSlices(m, Close, b);
    assert s[..|a|] == a;
  }

  /** A tag that is never closed after its first opening stops the
      substitution: the text is returned as it is. */
  lemma UnclosedBlockKept(a: string, m: string)
    requires !Contains(a, Open)
    requires !Contains(m, Close)
    ensures StripThink(a + Open + m) == a + Open + m
  {
    TagsHaveUniqueHeads();
    FirstOccurrenceAfter(a, Open, m);
    ConcatSlices(a, Open, m);
  }

  /** Cleaning is NOT idempotent: removing a block can join the halves of a
      tag that was split around it, and a second cleaning then removes the
      block so formed. */
  lemma CleanNotIdempotent(reply: string)
    requires reply == "<thi<think>x</think>nk>y</think>"
    ensures CleanResponse(reply) == "<think>y</think>"
    ensures CleanResponse(CleanResponse(reply)) == ""
  {
    FirstCleaning(reply);
    SecondPassEmpties(CleanResponse(reply));
  }

  lemma FirstCleaning(reply: string)
    requires reply == "<thi<think>x</think>nk>y</think>"
    ensures CleanResponse(reply) == "<think>y</think>"
  {
    var once := "<think>y</think>";
    FirstPassJoinsTag(reply, once);
    OnceIsTrimmed(once);
    CleanKeepsTrimmed(reply, once);
  }

  lemma OnceIsTrimmed(once: string)
    requires once == "<think>y</think>"
    ensures Trimmed(once)
  {
  }

  /** When the cut leaves trimmed text, cleaning returns exactly that text. */
  lemma CleanKeepsTrimmed(text: string, kept: string)
    requires StripThink(text) == kept && Trimmed(kept)
    ensures CleanResponse(text) == kept
  {
  }

  lemma FirstPassJoinsTag(reply: string, joined: string)
    requires reply == "<thi<think>x</think>nk>y</think>"
    requires joined == "<think>y</think>"
    ensures StripThink(reply) == joined
  {
    var rest := "nk>y</think>";
    assert !Contains("<thi", Open);
    assert !Contains("x", Close);
    assert reply == "<thi" + Open + "x" + Close + rest;
    FirstBlockRemoved("<thi", "x", rest);
    TailHasNoOpenTag(rest);
    HalvesJoin("<thi", rest, joined);
  }

  lemma HalvesJoin(front: string, back: string, joined: string)
    requires front == "<thi" && back == "nk>y</think>"
    requires joined == "<think>y</think>"
    ensures front + back == joined
  {
  }

  lemma TailHasNoOpenTag(rest: string)
    requires rest == "nk>y</think>"
    ensures !Contains(rest, Open)
  {
    forall i | 0 <= i <= |rest|
      ensures !OccursAt(rest, Open, i)
    {
      if i + |Open| <= |rest| {
        assert rest[i..i + |Open|][0] == rest[i];
        assert rest[i..i + |Open|][1] == rest[i + 1];
      }
    }
  }

  lemma SecondPassEmpties(once: string)
    requires once == "<think>y</think>"
    ensures CleanResponse(once) == ""
  {
    assert once == "" + Open + "y" + Close + "";
    assert !Contains("", Open);
    assert !Contains("y", Close);
    FirstBlockRemoved("", "y", "");
  }

  /** Cleaning is idempotent on every reply whose cleaned form has no
      opening tag left, in particular on replies that never had one. */
  lemma CleanIdempotentWithoutTags(text: string)
    requires !Contains(CleanResponse(text), Open)
    ensures CleanResponse(CleanResponse(text)) == CleanResponse(text)
  {
  }
}
