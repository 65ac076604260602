/** The rule-based comment screen: a fixed denylist, masking of listed words,
    the spam heuristics and the arithmetic captcha. */
module ContentFilter {
  import opened Basics
  import opened Text

  /** The fifteen listed words (advertising, politics, gambling, ...). */
  const SensitiveWords: seq<string> := [
    "垃圾", "广告", "推广", "加微信", "加QQ", "刷单", "兼职", "赚钱",
    "色情", "暴力", "政治", "反动", "邪教", "赌博", "毒品"
  ]

  // ---------------------------------------------------------------------------
  // Denylist test
  // ---------------------------------------------------------------------------

  /** `words.some(w => text.includes(w.toLowerCase()))`. */
  function SomeIncluded(words: seq<string>, text: string): (r: bool)
    ensures r <==> exists i :: 0 <= i < |words| && Contains(text, Lower(words[i]))
  {
    if words == [] then false
    else if Includes(text, Lower(words[0])) then true
    else
      var r := SomeIncluded(words[1..], text);
      assert forall i :: 1 <= i < |words| ==> words[i] == words[1..][i - 1];
      r
  }

  /** `containsSensitiveWords(content)`: some listed word, lower-cased, is a
      substring of the lower-cased content. */
  function ContainsSensitiveWords(content: string): (r: bool)
    ensures r <==> exists w :: w in SensitiveWords && Contains(Lower(content), Lower(w))
  {
    SomeIncluded(SensitiveWords, Lower(content))
  }

  // ---------------------------------------------------------------------------
  // Masking
  // ---------------------------------------------------------------------------

  /** `w` matches `s` at `i` ignoring case (the `i` flag of the regex). */
  predicate MatchesAt(s: string, i: int, w: string)
  {
    0 <= i && i + |w| <= |s| && forall k :: 0 <= k < |w| ==> LowerChar(s[i + k]) == LowerChar(w[k])
  }

  function Stars(n: nat): (r: string)
    ensures |r| == n && forall i :: 0 <= i < n ==> r[i] == '*'
  {
    seq(n, _ => '*')
  }

  /** Position `i` of `s` lies inside some match of `w`. */
  ghost predicate InMatch(s: string, w: string, i: int)
  {
    exists j :: 0 <= j <= i < j + |w| && MatchesAt(s, j, w)
  }

  /** A match in a suffix of `s` is a match in `s`, shifted by the cut. */
  lemma InMatchSuffix(s: string, n: nat, w: string)
    requires n <= |s|
    ensures forall i :: n <= i < |s| && InMatch(s[n..], w, i - n) ==> InMatch(s, w, i)
  {
    forall i | n <= i < |s| && InMatch(s[n..], w, i - n) ensures InMatch(s, w, i) {
      var j :| 0 <= j <= i - n < j + |w| && MatchesAt(s[n..], j, w);
      assert forall m :: n + j <= m < n + j + |w| ==> s[n..][m - n] == s[m];
      assert MatchesAt(s, n + j, w);
    }
  }

  /** `s.replace(new RegExp(w, 'gi'), '*'.repeat(w.length))`: scanning left to
      right, each match is replaced by as many stars and scanning resumes
      after it. */
  function Mask(s: string, w: string): (r: string)
    requires w != []
    ensures |r| == |s|
    ensures forall i :: 0 <= i < |s| ==> r[i] == s[i] || r[i] == '*'
    // a character outside every match of `w` is kept
    ensures forall i :: 0 <= i < |s| && r[i] != s[i] ==> InMatch(s, w, i)
    decreases |s|
  {
    if |s| < |w| then s
    else if MatchesAt(s, 0, w) then
      var rest := Mask(s[|w|..], w);
      assert forall i :: |w| <= i < |s| ==> s[i] == s[|w|..][i - |w|];
      InMatchSuffix(s, |w|, w);
      assert forall i :: 0 <= i < |w| ==> InMatch(s, w, i);
      Stars(|w|) + rest
    else
      var rest := Mask(s[1..], w);
      assert forall i :: 1 <= i < |s| ==> s[i] == s[1..][i - 1];
      InMatchSuffix(s, 1, w);
      [s[0]] + rest
  }

  /** No character of `w` folds to a star, so a star never takes part in a match. */
  predicate StarFree(w: string)
  {
    forall k :: 0 <= k < |w| ==> LowerChar(w[k]) != '*'
  }

  /** A match of a star-free word in a masked string was already a match in
      the original: masking only ever introduces stars. */
  lemma MaskedMatch(s: string, w: string, v: string, i: int)
    requires w != [] && StarFree(v)
    ensures MatchesAt(Mask(s, w), i, v) ==> MatchesAt(s, i, v)
  {
    var r := Mask(s, w);
    if MatchesAt(r, i, v) {
      forall k | 0 <= k < |v| ensures LowerChar(s[i + k]) == LowerChar(v[k]) {
        assert LowerChar(r[i + k]) == LowerChar(v[k]);
        assert r[i + k] != '*';
      }
    }
  }

  /** Matching after a prefix is matching in the rest. */
  lemma MatchesAtAfter(p: string, q: string, i: int, w: string)
    requires 0 <= i
    ensures MatchesAt(p + q, |p| + i, w) <==> MatchesAt(q, i, w)
  {
    if i + |w| <= |q| {
      assert forall j :: |p| + i <= j < |p| + i + |w| ==> (p + q)[j] == q[j - |p|];
    }
  }

  /** After masking `w`, no case-insensitive match of `w` is left. */
  lemma {:induction false} MaskLeavesNoMatch(s: string, w: string)
    requires w != [] && StarFree(w)
    ensures forall i :: !MatchesAt(Mask(s, w), i, w)
    decreases |s|
  {
    var r := Mask(s, w);
    if |s| < |w| {
    } else if MatchesAt(s, 0, w) {
      var rest := Mask(s[|w|..], w);
      MaskLeavesNoMatch(s[|w|..], w);
      assert r == Stars(|w|) + rest;
      forall i ensures !MatchesAt(r, i, w) {
        if 0 <= i < |w| {
          assert LowerChar(r[i]) == '*' && LowerChar(w[0]) != '*';
        } else if |w| <= i {
          MatchesAtAfter(Stars(|w|), rest, i - |w|, w);
        }
      }
    } else {
      var rest := Mask(s[1..], w);
      MaskLeavesNoMatch(s[1..], w);
      assert r == [s[0]] + rest;
      forall i ensures !MatchesAt(r, i, w) {
        if i == 0 {
          MaskedMatch(s, w, w, 0);
        } else if 0 < i {
          MatchesAtAfter([s[0]], rest, i - 1, w);
        }
      }
    }
  }

  /** Masking every word of `words`, in order. */
  function MaskAll(s: string, words: seq<string>): (r: string)
    requires forall i :: 0 <= i < |words| ==> words[i] != []
    ensures |r| == |s|
    ensures forall i :: 0 <= i < |s| ==> r[i] == s[i] || r[i] == '*'
  {
    if words == [] then s
    else
      var prev := MaskAll(s, words[..|words| - 1]);
      Mask(prev, words[|words| - 1])
  }

  /** A match of a star-free word in a string that differs from `s` only by
      stars was already a match in `s`. */
  lemma StarredMatch(s: string, r: string, v: string, j: int)
    requires |r| == |s| && forall i :: 0 <= i < |s| ==> r[i] == s[i] || r[i] == '*'
    requires StarFree(v) && MatchesAt(r, j, v)
    ensures MatchesAt(s, j, v)
  {
    forall k | 0 <= k < |v| ensures LowerChar(s[j + k]) == LowerChar(v[k]) {
      assert LowerChar(r[j + k]) == LowerChar(v[k]);
      assert r[j + k] != '*';
    }
  }

  /** Masking a list of star-free words changes only characters that lie
      inside a match, in the original text, of one of the words. */
  lemma {:induction false} MaskAllKeepsUnmatched(s: string, words: seq<string>)
    requires forall k :: 0 <= k < |words| ==> words[k] != [] && StarFree(words[k])
    ensures forall i :: 0 <= i < |s| && MaskAll(s, words)[i] != s[i] ==>
      exists w, j :: w in words && 0 <= j <= i < j + |w| && MatchesAt(s, j, w)
    decreases |words|
  {
    if words != [] {
      var init := words[..|words| - 1];
      var last := words[|words| - 1];
      var prev := MaskAll(s, init);
      assert MaskAll(s, words) == Mask(prev, last);
      MaskAllKeepsUnmatched(s, init);
      forall i | 0 <= i < |s| && MaskAll(s, words)[i] != s[i]
        ensures exists w, j :: w in words && 0 <= j <= i < j + |w| && MatchesAt(s, j, w)
      {
        if prev[i] != s[i] {
          var w, j :| w in init && 0 <= j <= i < j + |w| && MatchesAt(s, j, w);
          assert w in words;
        } else {
          assert InMatch(prev, last, i);
          var j :| 0 <= j <= i < j + |last| && MatchesAt(prev, j, last);
          StarredMatch(s, prev, last, j);
          assert last in words;
        }
      }
    }
  }

  /** Case-insensitive matching agrees with substring search on the
      lower-cased strings. */
  lemma MatchesAtIffOccurs(s: string, i: int, w: string)
    ensures MatchesAt(s, i, w) <==> OccursAt(Lower(s), i, Lower(w))
  {
    if 0 <= i && i + |w| <= |s| {
      if MatchesAt(s, i, w) {
        assert Lower(s)[i..i + |w|] == Lower(w);
      }
      if OccursAt(Lower(s), i, Lower(w)) {
        forall k | 0 <= k < |w| ensures LowerChar(s[i + k]) == LowerChar(w[k]) {
          assert Lower(s)[i..i + |w|][k] == Lower(w)[k];
        }
      }
    }
  }

  /** No word of `words` matches anywhere in `s`. */
  ghost predicate Clean(s: string, words: seq<string>)
  {
    forall j, i :: 0 <= j < |words| ==> !MatchesAt(s, i, words[j])
  }

  /** Masking one more word keeps the earlier words absent and removes the
      new one. */
  lemma MaskKeepsClean(s: string, words: seq<string>, w: string)
    requires w != [] && StarFree(w)
    requires forall j :: 0 <= j < |words| ==> StarFree(words[j])
    requires Clean(s, words)
    ensures Clean(Mask(s, w), words + [w])
  {
    forall j, i | 0 <= j < |words| ensures !MatchesAt(Mask(s, w), i, words[j]) {
      MaskedMatch(s, w, words[j], i);
    }
    MaskLeavesNoMatch(s, w);
    assert forall j :: 0 <= j < |words| ==> (words + [w])[j] == words[j];
  }

  lemma CleanMeansAbsent(s: string, words: seq<string>)
    requires Clean(s, words)
    ensures forall w :: w in words ==> !Contains(Lower(s), Lower(w))
  {
    forall w | w in words ensures !Contains(Lower(s), Lower(w)) {
      forall i | 0 <= i <= |s| - |w| ensures !OccursAt(Lower(s), i, Lower(w)) {
        MatchesAtIffOccurs(s, i, w);
      }
    }
  }

  lemma SensitiveWordsMaskable()
    ensures forall j :: 0 <= j < |SensitiveWords| ==> SensitiveWords[j] != [] && StarFree(SensitiveWords[j])
  {
  }

  /** `filterSensitiveWords(content)`: masks each listed word in turn. The
      result has the content's length, differs from it only by stars, and
      contains no listed word any more (in any letter case). */
  method FilterSensitiveWords(content: string) returns (filtered: string)
    ensures filtered == MaskAll(content, SensitiveWords)
    ensures |filtered| == |content|
    ensures forall i :: 0 <= i < |content| ==> filtered[i] == content[i] || filtered[i] == '*'
    ensures forall w :: w in SensitiveWords ==> !Contains(Lower(filtered), Lower(w))
    // only characters inside an occurrence of a listed word are starred
    ensures forall i :: 0 <= i < |content| && filtered[i] != content[i] ==>
      exists w, j :: w in SensitiveWords && 0 <= j <= i < j + |w| && MatchesAt(content, j, w)
  {
    SensitiveWordsMaskable();
    filtered := content;
    for n := 0 to |SensitiveWords|
      invariant filtered == MaskAll(content, SensitiveWords[..n])
      invariant Clean(filtered, SensitiveWords[..n])
    {
      var word := SensitiveWords[n];
      MaskKeepsClean(filtered, SensitiveWords[..n], word);
      TakeOneMore(SensitiveWords, n);
      assert SensitiveWords[..n + 1][..n] == SensitiveWords[..n];
      filtered := Mask(filtered, word);
    }
    TakeAll(SensitiveWords);
    CleanMeansAbsent(filtered, SensitiveWords);
    MaskAllKeepsUnmatched(content, SensitiveWords);
  }

  // ---------------------------------------------------------------------------
  // Spam heuristics
  // ---------------------------------------------------------------------------

  /** The characters the regex `.` does not match. */
  predicate IsLineTerminator(c: char)
  {
    c == '\n' || c == '\r' || c == '\U{2028}' || c == '\U{2029}'
  }

  /** The meaning of `/(.)\1{10,}/` at `i`: a character other than a line
      terminator followed by ten more copies of itself. */
  predicate FloodAt(s: string, i: int)
  {
    0 <= i && i + 11 <= |s| && !IsLineTerminator(s[i]) && forall k :: i < k <= i + 10 ==> s[k] == s[i]
  }

  /** `/(.)\1{10,}/.test(s)`, trying each start position in turn. */
  function Flooded(s: string): (r: bool)
    ensures r <==> exists i :: FloodAt(s, i)
    decreases |s|
  {
    if |s| < 11 then false
    else if FloodAt(s, 0) then true
    else
      var r := Flooded(s[1..]);
      assert forall k :: 1 <= k < |s| ==> s[1..][k - 1] == s[k];
      assert forall i :: FloodAt(s[1..], i) ==> FloodAt(s, i + 1);
      assert forall i :: i > 0 && FloodAt(s, i) ==> FloodAt(s[1..], i - 1);
      r
  }

  /** `http://` or `https://` starts at `i`. */
  predicate LinkAt(s: string, i: int)
  {
    OccursAt(s, i, "http://") || OccursAt(s, i, "https://")
  }

  /** The number of positions at which a link prefix starts. */
  function LinkStarts(s: string): nat
  {
    if s == [] then 0 else (if LinkAt(s, 0) then 1 else 0) + LinkStarts(s[1..])
  }

  /** `(s.match(/https?:\/\//g) || []).length`: the regex engine tries
      `https://` first, and resumes after each match. */
  function LinkCount(s: string): (n: nat)
    ensures n == LinkStarts(s)
    decreases |s|
  {
    if |s| >= 8 && s[..8] == "https://" then
      NoLinkInsideLink(s, 8);
      assert OccursAt(s, 0, "https://");
      1 + LinkCount(s[8..])
    else if |s| >= 7 && s[..7] == "http://" then
      NoLinkInsideLink(s, 7);
      assert OccursAt(s, 0, "http://");
      1 + LinkCount(s[7..])
    else if s == [] then 0
    else
      assert !OccursAt(s, 0, "http://") && !OccursAt(s, 0, "https://");
      LinkCount(s[1..])
  }

  /** A link prefix contains no `h` after its first character, so no other
      link starts inside it. */
  lemma {:induction false} NoLinkInsideLink(s: string, len: nat)
    requires len == 7 || len == 8
    requires |s| >= len && (s[..len] == "http://" || s[..len] == "https://")
    ensures LinkStarts(s) == 1 + LinkStarts(s[len..])
  {
    assert LinkAt(s, 0) by {
      if s[..len] == "http://" { assert OccursAt(s, 0, "http://"); }
      else { assert OccursAt(s, 0, "https://"); }
    }
    assert forall i :: 0 <= i < len - 1 ==> s[1..][i] != 'h' by {
      forall i | 0 <= i < len - 1 ensures s[1..][i] != 'h' {
        assert s[1..][i] == s[..len][i + 1];
      }
    }
    SkipNoLinks(s[1..], len - 1);
    assert s[1..][len - 1..] == s[len..];
  }

  /** Each link prefix begins with `h`. */
  lemma LinkStartsWithH(s: string, i: int)
    ensures LinkAt(s, i) ==> s[i] == 'h'
  {
    if OccursAt(s, i, "http://") { assert s[i..i + 7][0] == 'h'; }
    if OccursAt(s, i, "https://") { assert s[i..i + 8][0] == 'h'; }
  }

  /** Dropping a prefix of `n` characters none of which is `h` drops no link. */
  lemma {:induction false} SkipNoLinks(s: string, n: nat)
    requires n <= |s| && forall i :: 0 <= i < n ==> s[i] != 'h'
    ensures LinkStarts(s) == LinkStarts(s[n..])
  {
    if n > 0 {
      LinkStartsWithH(s, 0);
      SkipNoLinks(s[1..], n - 1);
      assert s[1..][n - 1..] == s[n..];
    }
  }

  /** `isSpamComment(content, author, email)`: rejects when any rule fires,
      in the source's order. The email is never looked at. */
  function IsSpamComment(content: string, author: string, email: Option<string>): (spam: bool)
    ensures spam <==>
      || |content| < 2 || |content| > 1000
      || (exists w :: w in SensitiveWords && Contains(Lower(content), Lower(w)))
      || (exists i :: FloodAt(content, i))
      || LinkStarts(content) > 2
      || (exists w :: w in SensitiveWords && Contains(Lower(author), Lower(w)))
  {
    if |content| < 2 || |content| > 1000 then true
    else if ContainsSensitiveWords(content) then true
    else if Flooded(content) then true
    else if LinkCount(content) > 2 then true
    else if ContainsSensitiveWords(author) then true
    else false
  }

  /** A comment that passes the screen has an acceptable length and neither
      its content nor its author name holds a listed word. */
  lemma NotSpamMeansClean(content: string, author: string, email: Option<string>)
    requires !IsSpamComment(content, author, email)
    ensures 2 <= |content| <= 1000
    ensures !ContainsSensitiveWords(content) && !ContainsSensitiveWords(author)
    ensures LinkStarts(content) <= 2
  {
  }

  /** The email argument never changes the verdict. */
  lemma SpamIgnoresEmail(content: string, author: string, e1: Option<string>, e2: Option<string>)
    ensures IsSpamComment(content, author, e1) == IsSpamComment(content, author, e2)
  {
  }

  // ---------------------------------------------------------------------------
  // Captcha
  // ---------------------------------------------------------------------------

  datatype Op = Plus | Minus | Times

  /** The three operations, in the source's order. */
  const Operations: seq<Op> := [Plus, Minus, Times]

  function Symbol(op: Op): string
  {
    match op
    case Plus => "+"
    case Minus => "-"
    case Times => "×"
  }

  function Apply(op: Op, a: int, b: int): int
  {
    match op
    case Plus => a + b
    case Minus => a - b
    case Times => a * b
  }

  /** One round of `Math.floor(Math.random() * n)` draws: the operation
      index (below 3) and the two operands before the `+ 1` (below 10). */
  datatype Roll = Roll(opPick: nat, aPick: nat, bPick: nat)

  predicate RollInRange(r: Roll)
  {
    r.opPick < 3 && r.aPick < 10 && r.bPick < 10
  }

  /** The challenge a roll stands for. */
  datatype Challenge = Challenge(op: Op, a: int, b: int)

  function Draw(r: Roll): (c: Challenge)
    requires RollInRange(r)
    ensures 1 <= c.a <= 10 && 1 <= c.b <= 10
  {
    Challenge(Operations[r.opPick], r.aPick + 1, r.bPick + 1)
  }

  /** The source retries a subtraction whose result would be negative. */
  predicate Rejected(c: Challenge)
    // with positive operands, exactly the challenges whose answer is negative
    ensures 1 <= c.a && 1 <= c.b ==> (Rejected(c) <==> Apply(c.op, c.a, c.b) < 0)
  {
    assert c.op == Times && 1 <= c.a && 1 <= c.b ==> c.a * c.b >= 1 by {
      if c.op == Times && 1 <= c.a && 1 <= c.b {
        MulAtLeast(c.a, c.b);
      }
    }
    c.op == Minus && c.a < c.b
  }


  datatype Captcha = Captcha(question: string, answer: string)

  /** `{ question: "a op b = ?", answer: String(a op b) }`. */
  function Render(c: Challenge): (r: Captcha)
    requires 1 <= c.a && 1 <= c.b && !Rejected(c)
    // the answer string reads back as the non-negative result
    ensures Apply(c.op, c.a, c.b) >= 0 && ParseInt(r.answer) == Some(Apply(c.op, c.a, c.b))
  {
    var value := Apply(c.op, c.a, c.b);
    assert IntToString(value) == NatToString(value);
    ParseIntOfIntToString(value);
    Captcha(NatToString(c.a) + " " + Symbol(c.op) + " " + NatToString(c.b) + " = ?", NatToString(value))
  }

  /** The index of the first roll the source keeps, or `|rolls|` if every
      roll is a retried subtraction. */
  function FirstKept(rolls: seq<Roll>): (k: nat)
    requires forall i :: 0 <= i < |rolls| ==> RollInRange(rolls[i])
    ensures k <= |rolls|
    ensures forall j :: 0 <= j < k ==> Rejected(Draw(rolls[j]))
    ensures k < |rolls| ==> !Rejected(Draw(rolls[k]))
  {
    if rolls == [] || !Rejected(Draw(rolls[0])) then 0
    else
      var k := FirstKept(rolls[1..]);
      assert forall j :: 1 <= j < |rolls| ==> rolls[j] == rolls[1..][j - 1];
      k + 1
  }

  /** `generateCaptcha()`, consuming one roll per attempt; `None` when the
      rolls run out before an attempt is kept. */
  function GenerateCaptcha(rolls: seq<Roll>): (r: Option<Captcha>)
    requires forall i :: 0 <= i < |rolls| ==> RollInRange(rolls[i])
    ensures var k := FirstKept(rolls);
      r == if k < |rolls| then Some(Render(Draw(rolls[k]))) else None
    decreases |rolls|
  {
    if rolls == [] then None
    else
      var c := Draw(rolls[0]);
      if Rejected(c) then
        assert forall j :: 1 <= j < |rolls| ==> rolls[j] == rolls[1..][j - 1];
        GenerateCaptcha(rolls[1..])
      else Some(Render(c))
  }
}
