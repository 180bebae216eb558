/** FileGatherPro._wrap_text: a long text cut into pieces of at most max_len characters,
    joined with an HTML line break. */
module Wrap {
  import opened Text

  const BR: string := "<br/>"

  /** `[text[i:i+n] for i in range(0, len(text), n)]` */
  function Chunks(text: string, n: nat): (r: seq<string>)
    requires n > 0
    ensures forall k :: 0 <= k < |r| ==> 0 < |r[k]| <= n
    ensures forall k :: 0 <= k < |r| - 1 ==> |r[k]| == n
    ensures forall k, j :: 0 <= k < |r| && 0 <= j < |r[k]| ==> r[k][j] in text
    decreases |text|
  {
    if text == [] then []
    else if |text| <= n then [text]
    else
      var rest := Chunks(text[n..], n);
      assert forall k, j :: 0 <= k < |rest| && 0 <= j < |rest[k]| ==> rest[k][j] in text by {
        forall c | c in text[n..] ensures c in text {
          var j :| 0 <= j < |text[n..]| && text[n..][j] == c;
          assert text[n + j] == c;
        }
      }
      [text[..n]] + rest
  }

  /** A text of at most max_len characters, or empty, comes back as it is; a longer one is its
      chunks joined by BR. A step of 0 would make range raise, so max_len must be positive. */
  function WrapText(text: string, maxLen: nat): (r: string)
    requires maxLen > 0
    ensures |text| <= maxLen ==> r == text
    ensures |text| > maxLen ==> r == Join(Chunks(text, maxLen), BR)
  {
    if text == [] || |text| <= maxLen then text else Join(Chunks(text, maxLen), BR)
  }

  /** The chunks put back together are the text. */
  lemma {:induction false} ChunksConcat(text: string, n: nat)
    requires n > 0
    ensures Concat(Chunks(text, n)) == text
    decreases |text|
  {
    if text == [] {
    } else if |text| <= n {
      assert [text][..0] == [];
    } else {
      ChunksConcat(text[n..], n);
      ConcatCons(text[..n], Chunks(text[n..], n));
      assert text == text[..n] + text[n..];
    }
  }

  /** A text longer than max_len is cut into chunks of exactly max_len, save a shorter last one. */
  lemma ChunkCount(text: string, n: nat)
    requires n > 0 && |text| > n
    ensures |Chunks(text, n)| >= 2
  {
  }

  /** Removing the line breaks joined in undoes the join, as long as no part contains a '<'. */
  lemma {:induction false} RemoveBreaks(parts: seq<string>)
    requires forall k :: 0 <= k < |parts| ==> '<' !in parts[k]
    ensures RemoveAll(Join(parts, BR), BR) == Concat(parts)
    decreases |parts|
  {
    if parts == [] {
    } else if |parts| == 1 {
      RemoveAllSkips(parts[0], [], BR);
      assert parts[0] + [] == parts[0];
      assert parts == [parts[0]] + [];
      ConcatCons(parts[0], []);
    } else {
      var rest := parts[1..];
      assert Join(parts, BR) == parts[0] + (BR + Join(rest, BR));
      RemoveAllSkips(parts[0], BR + Join(rest, BR), BR);
      RemoveAllFront(Join(rest, BR), BR);
      RemoveBreaks(rest);
      assert parts == [parts[0]] + rest;
      ConcatCons(parts[0], rest);
    }
  }

  /** Stripping the BR markup from the wrapped text gives the text back, for text without '<'. */
  lemma WrapRoundTrip(text: string, maxLen: nat)
    requires maxLen > 0 && '<' !in text
    ensures RemoveAll(WrapText(text, maxLen), BR) == text
  {
    if |text| <= maxLen {
      RemoveAllSkips(text, [], BR);
      assert text + [] == text;
    } else {
      var parts := Chunks(text, maxLen);
      forall k, j | 0 <= k < |parts| && 0 <= j < |parts[k]| ensures parts[k][j] != '<' {
        assert parts[k][j] in text;
      }
      RemoveBreaks(parts);
      ChunksConcat(text, maxLen);
    }
  }
}
