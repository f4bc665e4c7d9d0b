/** Context assembly and the question-answering chain: URL stripping, the
    budgeted concatenation of retrieved chunks, and how the chain feeds the
    retriever's output for a question into the prompt. */
module Chain {
  import opened Wrappers
  import opened Text
  import opened Retriever

  /** Written after every included chunk. */
  const Separator: string := "\n---\n"

  /** The default character budget of `format_documents`, which the chain uses. */
  const DefaultMaxChars: int := 3000

  /** The number of neighbours the chain's retriever asks the vector store for. */
  const TopK: nat := 3

  // ---------------------------------------------------------------------------
  // URL stripping: re.sub(r"https?://\S+|www\.\S+", "", text)

  /** Length of the maximal run of non-whitespace characters that opens `s` (`\S*`). */
  function NonSpaceRun(s: string): (n: nat)
    ensures n <= |s|
  {
    if s == [] || IsSpace(s[0]) then 0 else 1 + NonSpaceRun(s[1..])
  }

  /** The run is all non-whitespace and stops at whitespace or at the end. */
  lemma {:induction false} NonSpaceRunMaximal(s: string)
    ensures forall i :: 0 <= i < NonSpaceRun(s) ==> !IsSpace(s[i])
    ensures NonSpaceRun(s) < |s| ==> IsSpace(s[NonSpaceRun(s)])
  {
    if s != [] && !IsSpace(s[0]) {
      NonSpaceRunMaximal(s[1..]);
      forall i | 0 < i < NonSpaceRun(s) ensures !IsSpace(s[i]) {
        assert s[i] == s[1..][i - 1];
      }
    }
  }

  /** No character of `s` is whitespace. */
  predicate Solid(s: string)
  {
    forall i :: 0 <= i < |s| ==> !IsSpace(s[i])
  }

  /** `s` starts with `lit` followed by at least one non-whitespace character. */
  predicate Opens(s: string, lit: string)
  {
    |lit| < |s| && s[..|lit|] == lit && !IsSpace(s[|lit|])
  }

  /** The pattern matches at the start of `s`. */
  predicate UrlAt(s: string)
  {
    Opens(s, "https://") || Opens(s, "http://") || Opens(s, "www.")
  }

  /** Length of the pattern's match at the start of `s`, 0 when it does not match:
      the prefix (`https?://`, tried with the `s` first, or `www.`) and then the
      maximal run of non-whitespace that `\S+` takes greedily. */
  function UrlMatch(s: string): (n: nat)
    ensures n <= |s|
    ensures n > 0 <==> UrlAt(s)
  {
    if Opens(s, "https://") then 8 + NonSpaceRun(s[8..])
    else if Opens(s, "http://") then 7 + NonSpaceRun(s[7..])
    else if Opens(s, "www.") then 4 + NonSpaceRun(s[4..])
    else 0
  }

  /** A match after the literal `lit` is all non-whitespace and stops at
      whitespace or at the end. */
  lemma OpensMatch(s: string, lit: string)
    requires Opens(s, lit) && Solid(lit)
    ensures var n := |lit| + NonSpaceRun(s[|lit|..]);
            n <= |s| && (forall i :: 0 <= i < n ==> !IsSpace(s[i])) && (n < |s| ==> IsSpace(s[n]))
  {
    var k := |lit|;
    var u := s[k..];
    NonSpaceRunMaximal(u);
    forall i | 0 <= i < k + NonSpaceRun(u) ensures !IsSpace(s[i]) {
      if i < k {
        assert s[i] == s[..k][i] == lit[i];
      } else {
        assert s[i] == u[i - k];
      }
    }
    if k + NonSpaceRun(u) < |s| {
      assert s[k + NonSpaceRun(u)] == u[NonSpaceRun(u)];
    }
  }

  /** The three literals of the pattern hold no whitespace. */
  lemma LiteralsSolid()
    ensures Solid("https://") && Solid("http://") && Solid("www.")
  {
  }

  /** The match is all non-whitespace; `\S+` is greedy, so it ends at whitespace or
      at the end of the text. */
  lemma UrlMatchMaximal(s: string)
    ensures forall i :: 0 <= i < UrlMatch(s) ==> !IsSpace(s[i])
    ensures 0 < UrlMatch(s) < |s| ==> IsSpace(s[UrlMatch(s)])
  {
    LiteralsSolid();
    if Opens(s, "https://") {
      OpensMatch(s, "https://");
    } else if Opens(s, "http://") {
      OpensMatch(s, "http://");
    } else if Opens(s, "www.") {
      OpensMatch(s, "www.");
    }
  }

  /** `clean_text`: scanning left to right, every match is deleted and the scan goes
      on after it; at a position where nothing matches the character is kept. */
  function CleanText(s: string): (r: string)
    ensures |r| <= |s|
    decreases |s|
  {
    if s == [] then []
    else if UrlAt(s) then CleanText(s[UrlMatch(s)..])
    else [s[0]] + CleanText(s[1..])
  }

  /** No position of `s` starts a match. */
  predicate UrlFree(s: string)
  {
    forall i :: 0 <= i < |s| ==> !UrlAt(s[i..])
  }

  /** Right after a deleted match the cleaned text is empty or resumes with whitespace. */
  lemma CleanTextAfterMatch(t: string)
    requires UrlAt(t)
    ensures CleanText(t) == [] || IsSpace(CleanText(t)[0])
  {
    var n := UrlMatch(t);
    UrlMatchMaximal(t);
    if n < |t| {
      var u := t[n..];
      assert IsSpace(u[0]);
      NoMatchAtSpace(u);
    }
  }

  /** No match starts with whitespace. */
  lemma NoMatchAtSpace(u: string)
    requires u != [] && IsSpace(u[0])
    ensures !UrlAt(u)
  {
    assert |u| > 8 ==> u[..8][0] == u[0];
    assert |u| > 7 ==> u[..7][0] == u[0];
    assert |u| > 4 ==> u[..4][0] == u[0];
  }

  /** A non-whitespace prefix of the cleaned text was copied unchanged from the
      start of the input: a deletion always ends at whitespace or at the end. */
  lemma {:induction false} CleanTextPrefix(t: string, k: nat)
    ensures k <= |CleanText(t)| && (forall i :: 0 <= i < k ==> !IsSpace(CleanText(t)[i])) ==>
              k <= |t| && forall i :: 0 <= i < k ==> CleanText(t)[i] == t[i]
    decreases |t|
  {
    if t != [] && k > 0 && k <= |CleanText(t)| {
      if UrlAt(t) {
        CleanTextAfterMatch(t);
      } else if forall i :: 0 <= i < k ==> !IsSpace(CleanText(t)[i]) {
        KeptPrefixSolid(t, k);
        CleanTextPrefix(t[1..], k - 1);
        KeptPrefixCopied(t, k);
      }
    }
  }

  lemma KeptPrefixSolid(t: string, k: nat)
    requires t != [] && !UrlAt(t) && 0 < k <= |CleanText(t)|
    requires forall i :: 0 <= i < k ==> !IsSpace(CleanText(t)[i])
    ensures k - 1 <= |CleanText(t[1..])|
    ensures forall i :: 0 <= i < k - 1 ==> !IsSpace(CleanText(t[1..])[i])
  {
    var c := CleanText(t[1..]);
    assert CleanText(t) == [t[0]] + c;
    SolidAfterFirst(t[0], c, k);
  }

  lemma SolidAfterFirst(x: char, c: string, k: nat)
    requires 0 < k <= 1 + |c|
    requires forall i :: 0 <= i < k ==> !IsSpace(([x] + c)[i])
    ensures forall i :: 0 <= i < k - 1 ==> !IsSpace(c[i])
  {
    forall i | 0 <= i < k - 1 ensures !IsSpace(c[i]) {
      assert c[i] == ([x] + c)[i + 1];
    }
  }

  lemma KeptPrefixCopied(t: string, k: nat)
    requires t != [] && !UrlAt(t) && 0 < k <= |CleanText(t)|
    requires k - 1 <= |t[1..]| && forall i :: 0 <= i < k - 1 ==> CleanText(t[1..])[i] == t[1..][i]
    ensures k <= |t| && forall i :: 0 <= i < k ==> CleanText(t)[i] == t[i]
  {
    var c := CleanText(t[1..]);
    assert CleanText(t) == [t[0]] + c;
    CopiedAfterFirst(t, c, k);
  }

  lemma CopiedAfterFirst(t: string, c: string, k: nat)
    requires t != [] && 0 < k <= 1 + |c| && k - 1 <= |t| - 1
    requires forall i :: 0 <= i < k - 1 ==> c[i] == t[1..][i]
    ensures forall i :: 0 <= i < k ==> ([t[0]] + c)[i] == t[i]
  {
    forall i | 0 < i < k ensures ([t[0]] + c)[i] == t[i] {
      assert ([t[0]] + c)[i] == c[i - 1] && t[1..][i - 1] == t[i];
    }
  }

  /** If the kept first character and the cleaned rest open with `lit`, so did the input. */
  lemma OpensKept(t: string, lit: string)
    requires t != [] && Solid(lit)
    requires Opens([t[0]] + CleanText(t[1..]), lit)
    ensures Opens(t, lit)
  {
    var tail := t[1..];
    var c := CleanText(tail);
    var r := [t[0]] + c;
    var k := |lit|;
    forall i | 0 <= i < k ensures !IsSpace(c[i]) && c[i] == r[i + 1] {
      if i + 1 < k {
        assert r[i + 1] == r[..k][i + 1] == lit[i + 1];
      }
    }
    CleanTextPrefix(tail, k);
    forall i | 0 <= i <= k ensures t[i] == r[i] {
      if i > 0 {
        assert tail[i - 1] == t[i];
      }
    }
    assert t[..k] == r[..k];
  }

  /** A kept first character does not start a match in the cleaned text. */
  lemma NoMatchAtKept(t: string)
    requires t != [] && !UrlAt(t)
    ensures !UrlAt([t[0]] + CleanText(t[1..]))
  {
    var r := [t[0]] + CleanText(t[1..]);
    LiteralsSolid();
    if Opens(r, "https://") {
      OpensKept(t, "https://");
    }
    if Opens(r, "http://") {
      OpensKept(t, "http://");
    }
    if Opens(r, "www.") {
      OpensKept(t, "www.");
    }
  }

  lemma UrlFreeCons(x: char, c: string)
    requires UrlFree(c) && !UrlAt([x] + c)
    ensures UrlFree([x] + c)
  {
    var r := [x] + c;
    forall i | 0 < i < |r| ensures !UrlAt(r[i..]) {
      assert r[i..] == c[i - 1..];
    }
  }

  /** Nothing the pattern matches is left in the cleaned text. */
  lemma {:induction false} CleanTextUrlFree(t: string)
    ensures UrlFree(CleanText(t))
    decreases |t|
  {
    if t != [] {
      if UrlAt(t) {
        CleanTextUrlFree(t[UrlMatch(t)..]);
      } else {
        CleanTextUrlFree(t[1..]);
        NoMatchAtKept(t);
        UrlFreeCons(t[0], CleanText(t[1..]));
      }
    }
  }

  /** `clean_text` changes a text exactly when the text contains a match. */
  lemma {:induction false} CleanTextIdentity(t: string)
    ensures CleanText(t) == t <==> UrlFree(t)
    decreases |t|
  {
    CleanTextUrlFree(t);
    if t != [] && UrlFree(t) {
      assert t[0..] == t;
      UrlFreeTail(t);
      CleanTextIdentity(t[1..]);
      assert t == [t[0]] + t[1..];
    }
  }

  /** Cleaning twice is cleaning once. */
  lemma CleanTextIdempotent(t: string)
    ensures CleanText(CleanText(t)) == CleanText(t)
  {
    CleanTextUrlFree(t);
    CleanTextIdentity(CleanText(t));
  }

  lemma UrlFreeTail(t: string)
    requires t != [] && UrlFree(t)
    ensures UrlFree(t[1..])
  {
    forall i | 0 <= i < |t| - 1 ensures !UrlAt(t[1..][i..]) {
      assert t[1..][i..] == t[i + 1..];
    }
  }

  /** A match cannot run over whitespace, so one that starts in `p` before its final
      whitespace, with `q` following, already lies inside `p`. */
  lemma OpensWithin(p: string, q: string, lit: string)
    requires Solid(lit) && p != [] && IsSpace(p[|p| - 1]) && Opens(p + q, lit)
    ensures Opens(p, lit)
  {
    var s, k := p + q, |lit|;
    forall i | 0 <= i < k ensures !IsSpace(s[i]) {
      assert s[i] == s[..k][i] == lit[i];
    }
    assert s[|p| - 1] == p[|p| - 1];
    assert p[..k] == s[..k];
    assert p[k] == s[k];
  }

  lemma MatchWithin(p: string, q: string)
    requires p != [] && IsSpace(p[|p| - 1])
    ensures UrlAt(p + q) ==> UrlAt(p)
  {
    LiteralsSolid();
    if Opens(p + q, "https://") {
      OpensWithin(p, q, "https://");
    }
    if Opens(p + q, "http://") {
      OpensWithin(p, q, "http://");
    }
    if Opens(p + q, "www.") {
      OpensWithin(p, q, "www.");
    }
  }

  /** No position of `p` starts a match when `q` follows it. */
  predicate NoMatchIn(p: string, q: string)
  {
    forall i :: 0 <= i < |p| ==> !UrlAt((p + q)[i..])
  }

  /** Text without a match that ends in whitespace has no match starting in it,
      whatever follows. */
  lemma NoMatchInFreeText(p: string, q: string)
    requires UrlFree(p) && (p == [] || IsSpace(p[|p| - 1]))
    ensures NoMatchIn(p, q)
  {
    forall i | 0 <= i < |p| ensures !UrlAt((p + q)[i..]) {
      assert (p + q)[i..] == p[i..] + q;
      MatchWithin(p[i..], q);
    }
  }

  lemma NoMatchInTail(p: string, q: string)
    requires p != [] && NoMatchIn(p, q)
    ensures NoMatchIn(p[1..], q)
  {
    forall i | 0 <= i < |p| - 1 ensures !UrlAt((p[1..] + q)[i..]) {
      assert (p[1..] + q)[i..] == (p + q)[i + 1..];
    }
  }

  /** At a position without a match the character is kept. */
  lemma KeepStep(s: string)
    requires s != [] && !UrlAt(s)
    ensures CleanText(s) == [s[0]] + CleanText(s[1..])
  {
  }

  lemma ConsSplit(p: string, q: string, c: string)
    requires p != []
    ensures (p + q)[0] == p[0] && (p + q)[1..] == p[1..] + q
    ensures [p[0]] + (p[1..] + c) == p + c
  {
    assert [p[0]] + p[1..] == p;
  }

  /** Text in which no match starts is kept as it is in front of the cleaned rest:
      `clean_text` deletes nothing but the matches, and a match may start in the
      middle of a word. */
  lemma {:induction false} CleanTextKeeps(p: string, q: string)
    requires NoMatchIn(p, q)
    ensures CleanText(p + q) == p + CleanText(q)
    decreases |p|
  {
    if p == [] {
      assert p + q == q;
    } else {
      assert (p + q)[0..] == p + q;
      KeepStep(p + q);
      ConsSplit(p, q, CleanText(q));
      NoMatchInTail(p, q);
      CleanTextKeeps(p[1..], q);
    }
  }

  /** After such a text, a match is deleted and the scan goes on right after it. */
  lemma CleanTextDeletes(p: string, u: string)
    requires NoMatchIn(p, u) && UrlAt(u)
    ensures CleanText(p + u) == p + CleanText(u[UrlMatch(u)..])
  {
    CleanTextKeeps(p, u);
  }

  /** A match between text in which no match starts and a rest without a match is
      the only thing deleted. */
  lemma CleanTextAround(p: string, u: string, rest: string)
    requires NoMatchIn(p, u) && UrlAt(u)
    requires u[UrlMatch(u)..] == rest && UrlFree(rest)
    ensures CleanText(p + u) == p + rest
  {
    CleanTextDeletes(p, u);
    CleanTextIdentity(rest);
  }

  lemma CleanTextExample()
    ensures CleanText("a http://x b") == "a  b"
  {
    var p, u, rest := "a ", "http://x b", " b";
    ShortUrlFree(p);
    ShortUrlFree(rest);
    NoMatchInFreeText(p, u);
    ExampleMatch();
    assert p + u == "a http://x b";
    CleanTextAround(p, u, rest);
    assert p + rest == "a  b";
  }

  /** A match starts in the middle of a word and takes the closing parenthesis with
      it: only the opening one is left. */
  lemma CleanTextBracketed()
    ensures CleanText("(http://x)") == "("
  {
    var p, u := "(", "http://x)";
    assert p + u == "(http://x)";
    NoMatchAtOther(p + u);
    assert (p + u)[0..] == p + u;
    BracketedMatch();
    CleanTextAround(p, u, []);
    assert p + [] == "(";
  }

  /** A match starts with `h` or `w`. */
  lemma NoMatchAtOther(s: string)
    requires s != [] && s[0] != 'h' && s[0] != 'w'
    ensures !UrlAt(s)
  {
    assert |s| > 8 ==> s[..8][0] == s[0];
    assert |s| > 7 ==> s[..7][0] == s[0];
    assert |s| > 4 ==> s[..4][0] == s[0];
  }

  lemma BracketedMatch()
    ensures UrlAt("http://x)") && "http://x)"[UrlMatch("http://x)")..] == []
  {
    var u := "http://x)";
    assert u[..8][4] == ':';
    assert u[..7] == "http://";
    assert u[7..] == "x)" && "x)"[1..] == ")" && ")"[1..] == [];
    assert u[9..] == [];
  }

  /** Four characters are too few for a match. */
  lemma ShortUrlFree(t: string)
    requires |t| <= 4
    ensures UrlFree(t)
  {
  }

  lemma ExampleMatch()
    ensures UrlAt("http://x b") && "http://x b"[UrlMatch("http://x b")..] == " b"
  {
    var u := "http://x b";
    assert u[..8][4] == ':';
    assert u[..7] == "http://";
    assert u[7..] == "x b" && "x b"[1..] == " b";
    assert u[8..] == " b";
  }

  // ---------------------------------------------------------------------------
  // format_documents

  /** The cleaned text of every chunk, in order. */
  function Cleaned(docs: seq<Doc>): (cs: seq<string>)
    ensures |cs| == |docs|
  {
    if docs == [] then [] else Cleaned(docs[..|docs| - 1]) + [CleanText(docs[|docs| - 1].content)]
  }

  /** Entry `i` is the cleaned text of chunk `i`. */
  lemma {:induction false} CleanedAt(docs: seq<Doc>, i: nat)
    requires i < |docs|
    ensures Cleaned(docs)[i] == CleanText(docs[i].content)
  {
    if i < |docs| - 1 {
      CleanedAt(docs[..|docs| - 1], i);
    }
  }

  /** The cleaned texts `cs`, each followed by the separator, concatenated in order. */
  function Joined(cs: seq<string>): string
  {
    if cs == [] then [] else Joined(cs[..|cs| - 1]) + cs[|cs| - 1] + Separator
  }

  /** Text `k` passes the length check once the texts before it were appended. */
  predicate Fits(cs: seq<string>, maxChars: int, k: nat)
    requires k < |cs|
  {
    |Joined(cs[..k])| + |cs[k]| <= maxChars
  }

  /** The number of chunks included: every one before it passes the length check,
      and it stops at the first that does not, or at the end of the list. */
  function Taken(cs: seq<string>, maxChars: int): (n: nat)
    ensures n <= |cs|
    ensures forall k :: 0 <= k < n ==> Fits(cs, maxChars, k)
    ensures n < |cs| ==> !Fits(cs, maxChars, n)
  {
    TakenFrom(cs, maxChars, 0)
  }

  function TakenFrom(cs: seq<string>, maxChars: int, i: nat): (n: nat)
    requires i <= |cs|
    requires forall k :: 0 <= k < i ==> Fits(cs, maxChars, k)
    ensures i <= n <= |cs|
    ensures forall k :: 0 <= k < n ==> Fits(cs, maxChars, k)
    ensures n < |cs| ==> !Fits(cs, maxChars, n)
    decreases |cs| - i
  {
    if i == |cs| || !Fits(cs, maxChars, i) then i else TakenFrom(cs, maxChars, i + 1)
  }

  /** The accumulated context before trimming: the pieces of the included chunks. */
  function Assembled(docs: seq<Doc>, maxChars: int): string
  {
    var cs := Cleaned(docs);
    Joined(cs[..Taken(cs, maxChars)])
  }

  /** What `format_documents(docs, max_chars)` returns. */
  function Formatted(docs: seq<Doc>, maxChars: int): string
  {
    Strip(Assembled(docs, maxChars))
  }

  lemma JoinedStep(cs: seq<string>, k: nat)
    requires k < |cs|
    ensures Joined(cs[..k + 1]) == Joined(cs[..k]) + cs[k] + Separator
  {
    assert cs[..k + 1][..k] == cs[..k];
  }

  /** The count of included chunks is determined by the two stopping conditions. */
  lemma TakenIs(cs: seq<string>, maxChars: int, n: nat)
    requires n <= |cs|
    requires forall k :: 0 <= k < n ==> Fits(cs, maxChars, k)
    requires n == |cs| || !Fits(cs, maxChars, n)
    ensures Taken(cs, maxChars) == n
  {
  }

  /** `format_documents`: the loop over the chunks with its length check and `break`. */
  method FormatDocuments(docs: seq<Doc>, maxChars: int) returns (r: string)
    ensures r == Formatted(docs, maxChars)
  {
    ghost var cs := Cleaned(docs);
    var context := "";
    var i := 0;
    while i < |docs|
      invariant i <= |docs|
      invariant context == Joined(cs[..i])
      invariant forall k :: 0 <= k < i ==> Fits(cs, maxChars, k)
    {
      var content := CleanText(docs[i].content);
      CleanedAt(docs, i);
      if |context| + |content| > maxChars {
        break;
      }
      JoinedStep(cs, i);
      context := context + content + Separator;
      i := i + 1;
    }
    TakenIs(cs, maxChars, i);
    r := Strip(context);
  }

  lemma JoinedSnoc(cs: seq<string>, c: string)
    ensures Joined(cs + [c]) == Joined(cs) + c + Separator
  {
    assert (cs + [c])[..|cs|] == cs;
  }

  lemma {:induction false} JoinedAppend(a: seq<string>, b: seq<string>)
    ensures Joined(a + b) == Joined(a) + Joined(b)
    decreases |b|
  {
    if b == [] {
      assert a + b == a;
    } else {
      var init, last := b[..|b| - 1], b[|b| - 1];
      assert b == init + [last];
      assert a + b == (a + init) + [last];
      JoinedSnoc(a + init, last);
      JoinedSnoc(init, last);
      JoinedAppend(a, init);
    }
  }

  /** Budget: before trimming, the accumulated context is empty or at most the
      budget plus one separator, at every step of the loop. */
  lemma BudgetBound(docs: seq<Doc>, maxChars: int, n: nat)
    requires n <= Taken(Cleaned(docs), maxChars)
    ensures n == 0 ==> Joined(Cleaned(docs)[..n]) == []
    ensures n > 0 ==> |Joined(Cleaned(docs)[..n])| <= maxChars + |Separator|
  {
    var cs := Cleaned(docs);
    if n > 0 {
      JoinedStep(cs, n - 1);
      assert Fits(cs, maxChars, n - 1);
    }
  }

  lemma SliceOfConcat(p: string, c: string, q: string, rest: string)
    ensures var acc := p + c + q + rest;
            |p| + |c| + |q| <= |acc| && acc[|p|..|p| + |c|] == c && acc[|p| + |c|..|p| + |c| + |q|] == q
  {
    var acc := p + c + q + rest;
    assert acc[|p|..|p| + |c|] == c;
    assert acc[|p| + |c|..|p| + |c| + |q|] == q;
  }

  /** Text `k` of a prefix of length `n` stands whole in that prefix's pieces. */
  lemma ChunkInJoined(cs: seq<string>, n: nat, k: nat)
    requires k < n <= |cs|
    ensures var acc, start := Joined(cs[..n]), |Joined(cs[..k])|;
            start + |cs[k]| + |Separator| <= |acc| &&
            acc[start..start + |cs[k]|] == cs[k] &&
            acc[start + |cs[k]|..start + |cs[k]| + |Separator|] == Separator
  {
    assert cs[..n] == cs[..k + 1] + cs[k + 1..n];
    JoinedAppend(cs[..k + 1], cs[k + 1..n]);
    JoinedStep(cs, k);
    SliceOfConcat(Joined(cs[..k]), cs[k], Separator, Joined(cs[k + 1..n]));
  }

  /** All or nothing per chunk: every included chunk's cleaned text stands whole in
      the accumulated context, at the offset where the chunks before it end, and is
      followed by the separator. */
  lemma WholeChunks(docs: seq<Doc>, maxChars: int, k: nat)
    requires k < Taken(Cleaned(docs), maxChars)
    ensures var acc, start, c := Assembled(docs, maxChars), |Joined(Cleaned(docs)[..k])|, Cleaned(docs)[k];
            start + |c| + |Separator| <= |acc| &&
            acc[start..start + |c|] == c &&
            acc[start + |c|..start + |c| + |Separator|] == Separator
  {
    var cs := Cleaned(docs);
    var n := Taken(cs, maxChars);
    assert Assembled(docs, maxChars) == Joined(cs[..n]);
    ChunkInJoined(cs, n, k);
  }

  /** An empty list, or a first chunk that alone exceeds the budget, gives "". */
  lemma EmptyContext(docs: seq<Doc>, maxChars: int)
    requires docs == [] || |CleanText(docs[0].content)| > maxChars
    ensures Formatted(docs, maxChars) == []
  {
    var cs := Cleaned(docs);
    assert cs[..0] == [];
    if docs != [] {
      CleanedAt(docs, 0);
      assert !Fits(cs, maxChars, 0);
    }
    TakenIs(cs, maxChars, 0);
  }

  /** The loop stops at the first chunk that does not fit even when a later chunk
      would have fitted: here the second chunk is dropped with an empty context. */
  lemma StopsAtFirstOverflow()
    ensures var docs := [Doc(0, "aaaa", None), Doc(1, "b", None)];
            Taken(Cleaned(docs), 3) == 0 && |CleanText(docs[1].content)| <= 3 && Formatted(docs, 3) == []
  {
    var docs := [Doc(0, "aaaa", None), Doc(1, "b", None)];
    assert CleanText("aaaa") == "aaaa";
    assert CleanText("b") == "b";
    EmptyContext(docs, 3);
    var cs := Cleaned(docs);
    assert cs[..0] == [];
    TakenIs(cs, 3, 0);
  }

  /** Three chunks all fit in the default budget exactly when their cleaned texts
      have at most 2990 characters together: the third check counts the two
      separators before it but not its own. */
  lemma ThreeChunksFit(docs: seq<Doc>)
    requires |docs| == 3
    ensures Taken(Cleaned(docs), DefaultMaxChars) == 3 <==>
              |CleanText(docs[0].content)| + |CleanText(docs[1].content)| + |CleanText(docs[2].content)| <= 2990
  {
    var cs := Cleaned(docs);
    CleanedAt(docs, 0);
    CleanedAt(docs, 1);
    CleanedAt(docs, 2);
    JoinedStep(cs, 0);
    JoinedStep(cs, 1);
    assert cs[..0] == [];
    assert Taken(cs, DefaultMaxChars) == 3 ==> Fits(cs, DefaultMaxChars, 2);
    if |cs[0]| + |cs[1]| + |cs[2]| <= 2990 {
      TakenIs(cs, DefaultMaxChars, 3);
    }
  }

  /** Three chunks whose cleaned texts have at most 996 characters all fit in the
      default budget of 3000. */
  lemma ThreeShortChunksFit(docs: seq<Doc>)
    requires |docs| == 3
    requires forall k :: 0 <= k < 3 ==> |CleanText(docs[k].content)| <= 996
    ensures Taken(Cleaned(docs), DefaultMaxChars) == 3
  {
    var cs := Cleaned(docs);
    CleanedAt(docs, 0);
    CleanedAt(docs, 1);
    CleanedAt(docs, 2);
    JoinedStep(cs, 0);
    JoinedStep(cs, 1);
    assert cs[..0] == [];
    TakenIs(cs, DefaultMaxChars, 3);
  }

  /** Three chunks of 999 characters do not: the third would bring the context to
      3007 characters, so only two are included. */
  lemma ThreeLongChunksOverflow(docs: seq<Doc>)
    requires |docs| == 3
    requires forall k :: 0 <= k < 3 ==> |CleanText(docs[k].content)| == 999
    ensures Taken(Cleaned(docs), DefaultMaxChars) == 2
  {
    var cs := Cleaned(docs);
    CleanedAt(docs, 0);
    CleanedAt(docs, 1);
    CleanedAt(docs, 2);
    JoinedStep(cs, 0);
    JoinedStep(cs, 1);
    assert cs[..0] == [];
    TakenIs(cs, DefaultMaxChars, 2);
  }

  // ---------------------------------------------------------------------------
  // The chain built by build_qa_chain

  /** The chain's retriever; the prompt is fixed and the language model is supplied
      per question. */
  datatype QaChain = QaChain(retriever: VectorRetriever)

  /** Chat messages of the prompt. */
  datatype ChatMessage = ChatMessage(role: string, content: string)

  /** What the language model returns: a chat message with a `content` attribute,
      or a plain value given by its string form. */
  datatype ModelOutput = AIMessage(content: string) | Plain(text: string)

  /** The language model: the filled-in prompt to a reply, or a failure. */
  type LanguageModel = seq<ChatMessage> -> Result<ModelOutput>

  /** The building of the vector store from the uploaded PDFs (loading, splitting,
      embedding, indexing) and of the model; it may fail with a message. */
  type StoreBuilder = seq<string> -> Result<StoreHandle>

  /** The system prompt up to its `{context}` placeholder. */
  const SystemPromptHead: string :=
    "\nYou are a document-based assistant.\n\nRules:\n1. Answer ONLY using the provided context.\n" +
    "2. If the answer is not present, say:\n" +
    "   \"The document does not contain enough information to answer this question.\"\n" +
    "3. Keep the answer concise (max 3 sentences).\n4. Do not use outside knowledge.\n\nContext:\n"

  /** The system prompt after the placeholder. */
  const SystemPromptTail: string := "\n"

  /** The prompt template filled with the context and the question. */
  function PromptMessages(context: string, question: string): (p: seq<ChatMessage>)
    ensures |p| == 2 && p[0].role == "system" && p[1] == ChatMessage("human", question)
    ensures |p[0].content| == |SystemPromptHead| + |context| + |SystemPromptTail|
    ensures p[0].content[..|SystemPromptHead|] == SystemPromptHead
    ensures p[0].content[|SystemPromptHead|..|p[0].content| - |SystemPromptTail|] == context
    ensures p[0].content[|p[0].content| - |SystemPromptTail|..] == SystemPromptTail
  {
    var system := SystemPromptHead + context + SystemPromptTail;
    assert system[|SystemPromptHead|..|system| - |SystemPromptTail|] == context;
    assert system[|system| - |SystemPromptTail|..] == SystemPromptTail;
    [ChatMessage("system", system), ChatMessage("human", question)]
  }

  /** The text payload of a reply: `content` for a chat message, otherwise the
      value's string form. Both `StrOutputParser` and the answer unwrapping of the
      question endpoint take this. */
  function Payload(o: ModelOutput): string
  {
    match o
    case AIMessage(c) => c
    case Plain(t) => t
  }

  /** `build_qa_chain`: the store is built from the PDFs, the retriever wrapped
      around it asks for `TopK` neighbours; a failure of the build propagates. A
      built chain then puts into the prompt the top 3 similarity results for the
      question, regrouped only when multimodal, formatted with the budget of 3000,
      and fails when the search fails. */
  function BuildQaChain(pdfPaths: seq<string>, useMultimodal: bool, build: StoreBuilder): (r: Result<QaChain>)
    ensures build(pdfPaths).Failure? <==> r.Failure?
    ensures r.Failure? ==> r.error == build(pdfPaths).error
    ensures r.Success? ==> r.value.retriever.multimodal == useMultimodal
    ensures r.Success? ==> forall question: string, search: Search ::
              ContextFor(r.value, question, search) ==
                match search(build(pdfPaths).value, question, 3)
                case Failure(e) => Failure(e)
                case Success(results) =>
                  Success(Formatted(if useMultimodal then Reordered(results) else results, 3000))
  {
    match build(pdfPaths)
    case Failure(e) => Failure(e)
    case Success(store) => Success(QaChain(BuildRetriever(store, TopK, useMultimodal)))
  }

  /** The context the chain puts into the prompt for `question`, or the failure of
      the retrieval. */
  function ContextFor(chain: QaChain, question: string, search: Search): Result<string>
  {
    match Retrieved(chain.retriever, question, search)
    case Failure(e) => Failure(e)
    case Success(docs) => Success(Formatted(docs, DefaultMaxChars))
  }

  /** What `chain.invoke({"question": question})` returns: an exception of the
      retrieval or of the model propagates. */
  function ChainResult(chain: QaChain, question: string, search: Search, llm: LanguageModel): Result<ModelOutput>
  {
    match ContextFor(chain, question, search)
    case Failure(e) => Failure(e)
    case Success(context) =>
      match llm(PromptMessages(context, question))
      case Failure(e) => Failure(e)
      case Success(o) => Success(Plain(Payload(o)))
  }

  /** Running the chain: retrieve for the question, assemble the context, fill the
      prompt, call the model and parse its output to a string. */
  method InvokeChain(chain: QaChain, question: string, search: Search, llm: LanguageModel)
    returns (r: Result<ModelOutput>)
    ensures r == ChainResult(chain, question, search, llm)
  {
    var docs := RetrieveDocs(chain.retriever, question, search);
    match docs
    case Failure(e) =>
      r := Failure(e);
    case Success(found) =>
      var context := FormatDocuments(found, DefaultMaxChars);
      var reply := llm(PromptMessages(context, question));
      match reply
      case Failure(e) => r := Failure(e);
      case Success(o) => r := Success(Plain(Payload(o)));
  }

  /** The answer of a built chain: the search failure, or the text payload of the
      model's reply to the prompt holding the formatted top 3 results; a failure
      of the model propagates. */
  lemma BuiltChainResult(pdfPaths: seq<string>, useMultimodal: bool, build: StoreBuilder,
                         question: string, search: Search, llm: LanguageModel)
    requires BuildQaChain(pdfPaths, useMultimodal, build).Success?
    ensures var chain := BuildQaChain(pdfPaths, useMultimodal, build).value;
            var found := search(build(pdfPaths).value, question, 3);
            var answer := ChainResult(chain, question, search, llm);
            (found.Failure? ==> answer == Failure(found.error)) &&
            (found.Success? ==>
              var context := Formatted(if useMultimodal then Reordered(found.value) else found.value, 3000);
              answer == match llm(PromptMessages(context, question))
                        case Failure(e) => Failure(e)
                        case Success(reply) => Success(Plain(Payload(reply))))
  {
  }
}
