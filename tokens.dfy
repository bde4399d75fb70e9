/**
 The comma tokenizer and its inverse.

 `StringArray::fromTokens (text, ",", "")` breaks `text` at every comma (the only
 break character; there are no quote characters and nothing is trimmed). An empty
 text yields no token at all; any other text yields one more token than it has
 commas, empty tokens included ("a,,b" gives "a", "", "b"). `Join` is the text the
 encoder builds: the tokens with one comma between neighbours.
 */
module Tokens {

  const Comma: char := ','

  predicate CommaFree(t: string) {
    Comma !in t
  }

  predicate AllCommaFree(ts: seq<string>) {
    forall i :: 0 <= i < |ts| ==> CommaFree(ts[i])
  }

  /** Number of commas in a text. */
  function Commas(s: string): nat {
    multiset(s)[Comma]
  }

  /** Where the first token of `s` ends: at the first comma, or at the end of `s`. */
  function TokenEnd(s: string): (k: nat)
    ensures k <= |s|
    ensures forall j :: 0 <= j < k ==> s[j] != Comma
    ensures k < |s| ==> s[k] == Comma
  {
    if s == [] || s[0] == Comma then 0 else 1 + TokenEnd(s[1..])
  }

  /** Every token of `s`, breaking at each comma; at least one token, even for "". */
  function SplitAll(s: string): (ts: seq<string>)
    ensures |ts| > 0
    decreases |s|
  {
    var k := TokenEnd(s);
    if k == |s| then [s] else [s[..k]] + SplitAll(s[k + 1..])
  }

  /** `StringArray::fromTokens (s, ",", "")`: no token exactly when the text is empty. */
  function Tokenize(s: string): (ts: seq<string>)
    ensures ts == [] <==> s == []
  {
    if s == [] then [] else SplitAll(s)
  }

  /** The tokens with a comma between each pair of neighbours; "" for no tokens. */
  function Join(ts: seq<string>): string {
    if |ts| == 0 then "" else if |ts| == 1 then ts[0] else ts[0] + [Comma] + Join(ts[1..])
  }

  /** Each token preceded by a comma: what the encoder appends after the first element. */
  function CommaPrefixed(ts: seq<string>): string {
    if ts == [] then "" else [Comma] + ts[0] + CommaPrefixed(ts[1..])
  }

  function TotalLength(ts: seq<string>): nat {
    if ts == [] then 0 else |ts[0]| + TotalLength(ts[1..])
  }

  /** Splitting yields comma-free tokens, one more than the text has commas. */
  lemma {:induction false} SplitAllTokens(s: string)
    ensures AllCommaFree(SplitAll(s))
    ensures |SplitAll(s)| == Commas(s) + 1
    decreases |s|
  {
    var k := TokenEnd(s);
    if k == |s| {
      assert s[..k] == s;
      assert Comma !in multiset(s);
    } else {
      SplitAllTokens(s[k + 1..]);
      assert s == s[..k] + [Comma] + s[k + 1..];
      assert Comma !in multiset(s[..k]);
      assert Commas(s) == Commas(s[..k]) + 1 + Commas(s[k + 1..]);
    }
  }

  /** Joining the tokens of any text gives that text back. */
  lemma {:induction false} JoinSplitAll(s: string)
    ensures Join(SplitAll(s)) == s
    decreases |s|
  {
    var k := TokenEnd(s);
    if k == |s| {
      assert s[..k] == s;
    } else {
      var rest := SplitAll(s[k + 1..]);
      var ts := [s[..k]] + rest;
      assert SplitAll(s) == ts;
      assert ts[1..] == rest;
      assert Join(ts) == s[..k] + [Comma] + Join(rest);
      JoinSplitAll(s[k + 1..]);
      assert s == s[..k] + [Comma] + s[k + 1..];
    }
  }

  /** The first token of `t` + "," + `r` ends right before the comma when `t` has none. */
  lemma {:induction false} TokenEndAfter(t: string, r: string)
    requires CommaFree(t)
    ensures TokenEnd(t + [Comma] + r) == |t|
  {
    if t != [] {
      assert (t + [Comma] + r)[1..] == t[1..] + [Comma] + r;
      TokenEndAfter(t[1..], r);
    }
  }

  /** Splitting a join of comma-free tokens gives the tokens back. */
  lemma {:induction false} SplitAllJoin(ts: seq<string>)
    requires |ts| > 0 && AllCommaFree(ts)
    ensures SplitAll(Join(ts)) == ts
  {
    if |ts| == 1 {
      assert TokenEnd(ts[0]) == |ts[0]|;
    } else {
      var s := Join(ts);
      var r := Join(ts[1..]);
      assert s == ts[0] + [Comma] + r;
      TokenEndAfter(ts[0], r);
      assert s[..|ts[0]|] == ts[0];
      assert s[|ts[0]| + 1..] == r;
      SplitAllJoin(ts[1..]);
      assert ts == [ts[0]] + ts[1..];
    }
  }

  /** Tokenizing then joining is the identity on every text, "" included. */
  lemma JoinTokenize(s: string)
    ensures Join(Tokenize(s)) == s
  {
    if s != [] {
      JoinSplitAll(s);
    }
  }

  /** A non-empty text has one token more than commas, and no token holds a comma. */
  lemma TokenizeCount(s: string)
    ensures |Tokenize(s)| == if s == [] then 0 else Commas(s) + 1
    ensures AllCommaFree(Tokenize(s))
  {
    if s != [] {
      SplitAllTokens(s);
    }
  }

  /**
   Joining comma-free tokens and tokenizing again is lossless exactly when the
   tokens are not the single empty token (which joins to "" and reads back as none).
   */
  lemma TokenizeJoin(ts: seq<string>)
    requires AllCommaFree(ts)
    ensures Tokenize(Join(ts)) == ts <==> ts != [""]
  {
    if |ts| == 1 && ts != [""] {
      SplitAllJoin(ts);
    } else if |ts| > 1 {
      assert Join(ts) == ts[0] + [Comma] + Join(ts[1..]);
      assert Join(ts) != [];
      SplitAllJoin(ts);
    }
  }

  /** Appending one token after a comma: the step the encoder's loop takes. */
  lemma {:induction false} JoinSnoc(ts: seq<string>, t: string)
    requires |ts| > 0
    ensures Join(ts + [t]) == Join(ts) + [Comma] + t
  {
    if |ts| > 1 {
      assert (ts + [t])[1..] == ts[1..] + [t];
      JoinSnoc(ts[1..], t);
    }
  }

  /** The join is the first token followed by ",token" for each later token, in order. */
  lemma {:induction false} JoinFirstThenPrefixed(ts: seq<string>)
    requires |ts| > 0
    ensures Join(ts) == ts[0] + CommaPrefixed(ts[1..])
  {
    if |ts| > 1 {
      JoinFirstThenPrefixed(ts[1..]);
      assert ts[1..][1..] == ts[2..];
    }
  }

  /** Joining n comma-free tokens adds exactly n - 1 commas and n - 1 characters. */
  lemma {:induction false} JoinShape(ts: seq<string>)
    requires |ts| > 0 && AllCommaFree(ts)
    ensures Commas(Join(ts)) == |ts| - 1
    ensures |Join(ts)| == TotalLength(ts) + |ts| - 1
  {
    assert Comma !in multiset(ts[0]);
    if |ts| > 1 {
      JoinShape(ts[1..]);
      assert Join(ts) == ts[0] + [Comma] + Join(ts[1..]);
    }
  }
}
