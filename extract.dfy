/**
 Clean-up of the model's reply before it is parsed as JSON
 (`get_recommendation`, recommend_music.py:58-62).

 The reply is stripped. If it then contains the tagged marker "```json", it is
 split on that marker, the second piece is split on the bare marker "```",
 and the first piece of that is stripped and kept. Otherwise, if it contains
 a bare "```", the same is done with "```" in both splits. Otherwise the
 stripped reply is kept. There is no other fallback: a reply that is neither
 fenced nor bare JSON reaches the parser unchanged apart from the stripping.
 */
module FenceExtract {
  import opened PyStr

  const Fence: string := "```"
  const JsonFence: string := "```json"

  /** The tagged marker holds the bare marker, so a reply with the first holds the second. */
  lemma {:induction false} TagContainsFence(s: string)
    requires Contains(s, JsonFence)
    ensures Contains(s, Fence)
  {
    var i := Find(s, JsonFence).value;
    assert s[i..i + |Fence|] == s[i..i + |JsonFence|][..|Fence|];
    assert OccursAt(s, Fence, i);
  }

  /**
   The text handed to `json.loads`. The two `[1]` indexes never fail: each
   branch is entered only when its marker occurs, so the split has a second
   piece. The result is stripped; in the fenced branches it holds no "```";
   with no marker at all it is exactly the stripped reply.
   */
  function ExtractJson(reply: string): (r: string)
    ensures Stripped(r)
    ensures Contains(Trim(reply), Fence) ==> !Contains(r, Fence)
    ensures !Contains(Trim(reply), Fence) ==> r == Trim(reply)
  {
    var t := Trim(reply);
    if Contains(t, JsonFence) then
      var block := Split(Split(t, JsonFence)[1], Fence)[0];
      SplitPieceFree(Split(t, JsonFence)[1], Fence, 0);
      TrimKeepsAbsent(block, Fence);
      TagContainsFence(t);
      Trim(block)
    else if Contains(t, Fence) then
      var block := Split(Split(t, Fence)[1], Fence)[0];
      SplitPieceFree(Split(t, Fence)[1], Fence, 0);
      TrimKeepsAbsent(block, Fence);
      Trim(block)
    else
      t
  }

  /**
   The piece the tagged branch keeps, located in `t`: from just after the
   first "```json" (at `i`) up to the first "```" (at `k`) that comes before
   the next "```json" (at `m`), or up to that next tag.
   */
  lemma {:induction false} TaggedPiece(t: string, i: int, m: int, k: int)
    requires FirstAt(t, JsonFence, i)
    requires FirstOrEnd(t[i + |JsonFence|..], JsonFence, m)
    requires FirstOrEnd(t[i + |JsonFence|..][..m], Fence, k)
    ensures i + |JsonFence| + k <= |t|
    ensures Split(Split(t, JsonFence)[1], Fence)[0] == t[i + |JsonFence|..i + |JsonFence| + k]
  {
    SplitSecondThenFirst(t, JsonFence, Fence, i, m, k);
  }

  /** The piece the bare branch keeps: between the first "```" (at `i`) and the second (at `k`). */
  lemma {:induction false} BarePiece(t: string, i: int, k: int)
    requires FirstAt(t, Fence, i)
    requires FirstOrEnd(t[i + |Fence|..], Fence, k)
    ensures i + |Fence| + k <= |t|
    ensures Split(Split(t, Fence)[1], Fence)[0] == t[i + |Fence|..i + |Fence| + k]
  {
    var rest := t[i + |Fence|..];
    PrefixBeforeFirst(rest, Fence, k);
    assert FirstOrEnd(rest[..k], Fence, k);
    SplitSecondThenFirst(t, Fence, Fence, i, k, k);
  }

  /**
   Tagged branch, in full: with `i` the first "```json" of the stripped reply,
   `m` the next "```json" after it (or the end) and `k` the first "```" before
   that point (or that point), the result is the stripped text from just
   after the tag up to `k`.
   */
  lemma {:induction false} ExtractTaggedBlock(reply: string, i: int, m: int, k: int)
    requires FirstAt(Trim(reply), JsonFence, i)
    requires FirstOrEnd(Trim(reply)[i + |JsonFence|..], JsonFence, m)
    requires FirstOrEnd(Trim(reply)[i + |JsonFence|..][..m], Fence, k)
    ensures i + |JsonFence| + k <= |Trim(reply)|
    ensures ExtractJson(reply) == Trim(Trim(reply)[i + |JsonFence|..i + |JsonFence| + k])
  {
    TaggedPiece(Trim(reply), i, m, k);
  }

  /**
   Tagged branch, usual case: when the reply carries one "```json" tag, the
   result is the stripped text between the tag and the next "```", or up to
   the end when no "```" follows.
   */
  lemma {:induction false} ExtractTaggedSingle(reply: string, i: int, k: int)
    requires FirstAt(Trim(reply), JsonFence, i)
    requires !Contains(Trim(reply)[i + |JsonFence|..], JsonFence)
    requires FirstOrEnd(Trim(reply)[i + |JsonFence|..], Fence, k)
    ensures i + |JsonFence| + k <= |Trim(reply)|
    ensures ExtractJson(reply) == Trim(Trim(reply)[i + |JsonFence|..i + |JsonFence| + k])
  {
    var rest := Trim(reply)[i + |JsonFence|..];
    assert FirstOrEnd(rest, JsonFence, |rest|);
    assert rest[..|rest|] == rest;
    ExtractTaggedBlock(reply, i, |rest|, k);
  }

  /**
   Bare branch: when the stripped reply has "```" but no "```json", the result
   is the stripped text between the first "```" and the second (or the end).
   */
  lemma {:induction false} ExtractBareBlock(reply: string, i: int, k: int)
    requires !Contains(Trim(reply), JsonFence)
    requires FirstAt(Trim(reply), Fence, i)
    requires FirstOrEnd(Trim(reply)[i + |Fence|..], Fence, k)
    ensures i + |Fence| + k <= |Trim(reply)|
    ensures ExtractJson(reply) == Trim(Trim(reply)[i + |Fence|..i + |Fence| + k])
  {
    BarePiece(Trim(reply), i, k);
  }

  /** Applying the clean-up to its own output changes nothing. */
  lemma {:induction false} ExtractIdempotent(reply: string)
    ensures ExtractJson(ExtractJson(reply)) == ExtractJson(reply)
  {
    var r := ExtractJson(reply);
    TrimStripped(r);
    if Contains(r, JsonFence) {
      TagContainsFence(r);
    }
  }

  /**
   The text both fenced branches keep before stripping,
   `t.split(open)[1].split(close)[0]`, is a slice of `t` (when `t` holds `open`).
   */
  lemma {:induction false} FencedPieceBounds(t: string, open: string, close: string) returns (a: int, b: int)
    requires open != [] && close != [] && Contains(t, open)
    ensures 0 <= a <= b <= |t| && Split(Split(t, open)[1], close)[0] == t[a..b]
  {
    var i := FirstOrEndIndex(t, open);
    a := i + |open|;
    var m := FirstOrEndIndex(t[a..], open);
    var k := FirstOrEndIndex(t[a..][..m], close);
    SplitSecondThenFirst(t, open, close, i, m, k);
    b := a + k;
  }

  /** The stripped fenced text is a slice of `t` as well. */
  lemma {:induction false} FencedPieceIsSlice(t: string, open: string, close: string)
    requires open != [] && close != [] && Contains(t, open)
    ensures IsSlice(Trim(Split(Split(t, open)[1], close)[0]), t)
  {
    var a, b := FencedPieceBounds(t, open, close);
    TrimSliceIsSlice(t, Split(Split(t, open)[1], close)[0], a, b);
  }

  /** The result is a contiguous piece of the raw reply. */
  lemma {:induction false} ExtractIsSlice(reply: string)
    ensures IsSlice(ExtractJson(reply), reply)
  {
    var t := Trim(reply);
    TrimIsSlice(reply);
    if Contains(t, JsonFence) {
      FencedPieceIsSlice(t, JsonFence, Fence);
      SliceOfSlice(ExtractJson(reply), t, reply);
    } else if Contains(t, Fence) {
      FencedPieceIsSlice(t, Fence, Fence);
      SliceOfSlice(ExtractJson(reply), t, reply);
    }
  }
}

/** Typical and odd shapes of model output, and what the clean-up hands to the parser. */
module FenceExamples {
  import opened PyStr
  import opened SeqFacts
  import opened FenceExtract

  /** A reply without any backtick reaches the parser as it is, apart from stripping. */
  lemma {:induction false} NoBacktickReply(reply: string)
    requires '`' !in reply
    ensures ExtractJson(reply) == Trim(reply)
  {
    AbsentChar(Trim(reply), Fence, '`');
  }

  lemma {:induction false} NewlineIsWhitespace()
    ensures AllWhitespace("\n")
  {
  }

  /** A reply that opens with a backtick and does not end in whitespace is already stripped. */
  lemma {:induction false} BacktickEnds(reply: string)
    requires |reply| >= 1 && reply[0] == '`' && !IsWhitespace(reply[|reply| - 1])
    ensures Trim(reply) == reply
  {
    assert !IsWhitespace('`');
    TrimStripped(reply);
  }

  /** A reply that is exactly "```json", then text without backticks, then "```": the stripped text. */
  lemma {:induction false} TaggedEnvelope(x: string)
    requires '`' !in x
    ensures ExtractJson(JsonFence + x + Fence) == Trim(x)
  {
    var reply := JsonFence + x + Fence;
    Envelope(JsonFence, x, Fence);
    BacktickEnds(reply);
    FirstAtAfter([], JsonFence, x + Fence);
    NoOccurrenceInTail(x, Fence, JsonFence);
    FirstAtAfter(x, Fence, []);
    ExtractTaggedSingle(reply, 0, |x|);
  }

  /** "```" around text that does not start with "json" is an untagged fence. */
  lemma {:induction false} UntaggedFence(x: string)
    requires '`' !in x && x != [] && x[0] != 'j'
    ensures !Contains(Fence + x + Fence, JsonFence)
  {
    var s := Fence + x + Fence;
    forall j | 0 <= j ensures !OccursAt(s, JsonFence, j) {
      if j < 3 {
        assert s[3] == x[0];
        assert j + 7 <= |s| ==> s[j..j + 7][3 - j] == s[3];
      } else if j < 3 + |x| {
        assert s[j] == x[j - 3];
        assert j + 7 <= |s| ==> s[j..j + 7][0] == s[j];
      }
    }
    assert forall j :: !OccursAt(s, JsonFence, j);
  }

  /** A reply that is exactly "```", then untagged text without backticks, then "```": the stripped text. */
  lemma {:induction false} BareEnvelope(x: string)
    requires '`' !in x && x != [] && x[0] != 'j'
    ensures ExtractJson(Fence + x + Fence) == Trim(x)
  {
    var reply := Fence + x + Fence;
    BareFences(x);
    ExtractBareBlock(reply, 0, |x|);
  }

  /** Where the markers of "```" + `x` + "```" are, for `BareEnvelope`. */
  lemma {:induction false} BareFences(x: string)
    requires '`' !in x && x != [] && x[0] != 'j'
    ensures Trim(Fence + x + Fence) == Fence + x + Fence
    ensures !Contains(Fence + x + Fence, JsonFence)
    ensures FirstAt(Fence + x + Fence, Fence, 0)
    ensures FirstOrEnd((Fence + x + Fence)[|Fence|..], Fence, |x|)
    ensures (Fence + x + Fence)[|Fence|..|Fence| + |x|] == x
  {
    var reply := Fence + x + Fence;
    Envelope(Fence, x, Fence);
    BacktickEnds(reply);
    UntaggedFence(x);
    FirstAtAfter([], Fence, x + Fence);
    FirstAtAfter(x, Fence, []);
  }

  /**
   The usual fenced answer, "```json", a newline, the body, a newline and
   "```": the parser receives the body alone.
   */
  lemma {:induction false} TaggedReply(body: string)
    requires '`' !in body && Stripped(body)
    ensures ExtractJson(JsonFence + "\n" + body + "\n" + Fence) == body
  {
    var x := "\n" + body + "\n";
    assert JsonFence + "\n" + body + "\n" + Fence == JsonFence + x + Fence;
    TaggedEnvelope(x);
    NewlineIsWhitespace();
    TrimPadded("\n", body, "\n");
  }

  /**
   An upper-case "```JSON" tag is not the tag the code looks for: the bare
   branch fires and the text handed on starts with "JSON".
   */
  lemma {:induction false} UpperCaseTagReply(x: string)
    requires '`' !in x && |x| >= 4 && x[..4] == "JSON"
    ensures ExtractJson(Fence + x + Fence) == Trim(x)
    ensures |Trim(x)| >= 4 && Trim(x)[..4] == "JSON"
  {
    JsonWordEnds(x);
    BareEnvelope(x);
    TrimKeepsPrefix(x, 4);
  }

  lemma {:induction false} JsonWordEnds(x: string)
    requires |x| >= 4 && x[..4] == "JSON"
    ensures x[0] == 'J' && x[3] == 'N'
    ensures x[0] != 'j' && !IsWhitespace(x[0]) && !IsWhitespace(x[3])
  {
    assert x[0] == x[..4][0];
    assert x[3] == x[..4][3];
  }

  /** The second "```json" after the first, with one backtick glued in front of it. */
  lemma {:induction false} GluedSecondTag(body: string)
    requires '`' !in body
    ensures FirstOrEnd(body + "`" + JsonFence, JsonFence, |body| + 1)
  {
    var rest := body + "`" + JsonFence;
    var m := |body| + 1;
    forall j | 0 <= j < m ensures !OccursAt(rest, JsonFence, j) {
      if j < |body| {
        assert rest[j] == body[j];
        assert j + 7 <= |rest| ==> rest[j..j + 7][0] == rest[j];
      } else {
        assert rest[j + 3] == '`';
        assert rest[j..j + 7][3] == rest[j + 3];
      }
    }
    assert rest[m..m + 7] == JsonFence;
  }

  /** A reply that opens with the tag and ends with a second tag is already stripped. */
  lemma {:induction false} TwoTagStripped(seg: string)
    ensures Trim(JsonFence + seg + JsonFence) == JsonFence + seg + JsonFence
  {
    var reply := JsonFence + seg + JsonFence;
    assert reply[|reply| - 1] == 'n';
    BacktickEnds(reply);
  }

  /** The first tag of such a reply is the one at position 0. */
  lemma {:induction false} TwoTagFirst(seg: string)
    ensures FirstAt(JsonFence + seg + JsonFence, JsonFence, 0)
  {
    FirstAtAfter([], JsonFence, seg + JsonFence);
    assert [] + JsonFence + (seg + JsonFence) == JsonFence + seg + JsonFence;
  }

  /**
   After the first tag of such a reply, the next tag is the glued one, and
   no "```" comes before it.
   */
  lemma {:induction false} GluedRest(body: string)
    requires '`' !in body
    ensures FirstOrEnd(body + "`" + JsonFence, JsonFence, |body| + 1)
    ensures FirstOrEnd((body + "`" + JsonFence)[..|body| + 1], Fence, |body| + 1)
  {
    var seg := body + "`";
    GluedSecondTag(body);
    assert (body + "`" + JsonFence)[..|body| + 1] == seg;
    NoOccurrenceInTail(body, "`", Fence);
  }

  /**
   The kept text ends at a second "```json" before "```" is looked for, so a
   backtick glued to that second tag stays in the result.
   */
  lemma {:induction false} BacktickBeforeSecondTag(body: string)
    requires '`' !in body && Stripped(body)
    ensures ExtractJson(JsonFence + body + "`" + JsonFence) == body + "`"
  {
    var seg := body + "`";
    var reply := JsonFence + seg + JsonFence;
    var m := |seg|;
    assert reply == JsonFence + body + "`" + JsonFence;
    TwoTagStripped(seg);
    TwoTagFirst(seg);
    assert reply[7..] == body + "`" + JsonFence;
    GluedRest(body);
    ExtractTaggedBlock(reply, 0, m, m);
    assert reply[7..7 + m] == seg;
    TrimStripped(seg);
  }
}
