/**
  The JavaScript string and array built-ins that the analyzers rely on,
  stated over `string` (a sequence of characters):
  `String.prototype.includes`, `startsWith` (Dafny's prefix test `<=`),
  `Array.prototype.join`, `flat`, `filter` by a prefix, `trim`, and the one
  regular expression of the DMARC analyzer, `/p=([^;]+)/`.
 */
module Text {

  datatype Option<T> = None | Some(value: T)

  // ---------------------------------------------------------------------------
  // includes

  /** `s.includes(sub)`: `sub` is a prefix of `s` or of one of its suffixes. */
  predicate Contains(s: string, sub: string)
    decreases |s|
  {
    sub <= s || (|s| > 0 && Contains(s[1..], sub))
  }

  /** The position-based reading of `includes`: `sub` occurs at index `i`. */
  ghost predicate OccursAt(s: string, sub: string, i: int)
  {
    0 <= i && i + |sub| <= |s| && s[i..i + |sub|] == sub
  }

  lemma {:induction false} OccursAtContains(s: string, sub: string, i: int)
    requires OccursAt(s, sub, i)
    ensures Contains(s, sub)
    decreases i
  {
    if i == 0 {
      assert s[..|sub|] == sub;
    } else {
      assert s[1..][i - 1..i - 1 + |sub|] == s[i..i + |sub|];
      OccursAtContains(s[1..], sub, i - 1);
    }
  }

  lemma {:induction false} ContainsWitness(s: string, sub: string) returns (i: nat)
    requires Contains(s, sub)
    ensures OccursAt(s, sub, i)
    decreases |s|
  {
    if sub <= s {
      i := 0;
      assert s[..|sub|] == sub;
    } else {
      var j := ContainsWitness(s[1..], sub);
      assert s[1..][j..j + |sub|] == s[j + 1..j + 1 + |sub|];
      i := j + 1;
    }
  }

  /** `includes` agrees with the index-based definition of a substring. */
  lemma ContainsIff(s: string, sub: string)
    ensures Contains(s, sub) <==> exists i :: OccursAt(s, sub, i)
  {
    if Contains(s, sub) {
      var i := ContainsWitness(s, sub);
    }
    if exists i :: OccursAt(s, sub, i) {
      var i :| OccursAt(s, sub, i);
      OccursAtContains(s, sub, i);
    }
  }

  /** A string contains every substring of every part it is glued from. */
  lemma ContainsInMiddle(a: string, b: string, c: string, sub: string)
    requires Contains(b, sub)
    ensures Contains(a + b + c, sub)
  {
    var i := ContainsWitness(b, sub);
    var s := a + b + c;
    assert s[|a| + i..|a| + i + |sub|] == b[i..i + |sub|];
    OccursAtContains(s, sub, |a| + i);
  }

  /** A string contains every piece of every string it contains. */
  lemma ContainsSlice(s: string, sub: string, i: int, j: int)
    requires Contains(s, sub) && 0 <= i <= j <= |sub|
    ensures Contains(s, sub[i..j])
  {
    var k := ContainsWitness(s, sub);
    forall m | 0 <= m < j - i ensures s[k + i..k + j][m] == sub[i..j][m] {
      assert sub[i + m] == s[k..k + |sub|][i + m];
    }
    OccursAtContains(s, sub[i..j], k + i);
  }

  /** Inclusion is transitive. */
  lemma ContainsTrans(s: string, mid: string, sub: string)
    requires Contains(s, mid) && Contains(mid, sub)
    ensures Contains(s, sub)
  {
    var i := ContainsWitness(s, mid);
    var j := ContainsWitness(mid, sub);
    forall m | 0 <= m < |sub| ensures s[i + j..i + j + |sub|][m] == sub[m] {
      assert sub[m] == mid[j..j + |sub|][m];
      assert mid[j + m] == s[i..i + |mid|][j + m];
    }
    assert s[i + j..i + j + |sub|] == sub;
    OccursAtContains(s, sub, i + j);
  }

  /** Every character of a contained string occurs in the containing one. */
  lemma ContainedCharsOccur(s: string, sub: string)
    ensures Contains(s, sub) ==> forall ch :: ch in sub ==> ch in s
  {
    if Contains(s, sub) {
      var i := ContainsWitness(s, sub);
      forall ch | ch in sub ensures ch in s {
        var k :| 0 <= k < |sub| && sub[k] == ch;
        assert s[i + k] == s[i..i + |sub|][k];
      }
    }
  }

  // ---------------------------------------------------------------------------
  // join

  /** `xs.join(sep)`. */
  function Join(xs: seq<string>, sep: string): string
  {
    if |xs| == 0 then ""
    else if |xs| == 1 then xs[0]
    else xs[0] + sep + Join(xs[1..], sep)
  }

  /** The joined text starts with the first part. */
  lemma JoinStartsWithFirst(xs: seq<string>, sep: string)
    requires |xs| > 0
    ensures xs[0] <= Join(xs, sep)
  {
    if |xs| > 1 {
      assert Join(xs, sep) == xs[0] + (sep + Join(xs[1..], sep));
    }
  }

  /** Every part occurs in the joined text. */
  lemma {:induction false} JoinContainsEach(xs: seq<string>, sep: string, k: nat)
    requires k < |xs|
    ensures Contains(Join(xs, sep), xs[k])
    decreases |xs|
  {
    if k == 0 {
      JoinStartsWithFirst(xs, sep);
    } else {
      JoinContainsEach(xs[1..], sep, k - 1);
      ContainsInMiddle(xs[0] + sep, Join(xs[1..], sep), "", xs[k]);
      assert xs[0] + sep + Join(xs[1..], sep) + "" == Join(xs, sep);
    }
  }

  /** With a non-empty separator, the join is empty exactly for `[]` and `[""]`. */
  lemma JoinEmptyIff(xs: seq<string>, sep: string)
    requires sep != ""
    ensures Join(xs, sep) == "" <==> xs == [] || xs == [""]
  {
    if |xs| > 1 {
      assert |Join(xs, sep)| >= |sep|;
    }
  }

  // ---------------------------------------------------------------------------
  // flat and filter

  /** `chunks.flat()`: the strings of all TXT records, record after record. */
  function Flatten(chunks: seq<seq<string>>): (r: seq<string>)
    ensures forall s :: s in r <==> exists k :: 0 <= k < |chunks| && s in chunks[k]
  {
    if |chunks| == 0 then [] else chunks[0] + Flatten(chunks[1..])
  }

  /** Flattening keeps the order of the records: it distributes over `+`. */
  lemma {:induction false} FlattenConcat(xs: seq<seq<string>>, ys: seq<seq<string>>)
    ensures Flatten(xs + ys) == Flatten(xs) + Flatten(ys)
    decreases |xs|
  {
    if |xs| > 0 {
      assert (xs + ys)[1..] == xs[1..] + ys;
      FlattenConcat(xs[1..], ys);
    } else {
      assert xs + ys == ys;
    }
  }

  /** `xs.filter(r => r.startsWith(prefix))`. */
  function FilterPrefix(xs: seq<string>, prefix: string): (r: seq<string>)
    ensures |r| <= |xs|
    ensures forall s :: s in r <==> s in xs && prefix <= s
  {
    if |xs| == 0 then []
    else if prefix <= xs[0] then [xs[0]] + FilterPrefix(xs[1..], prefix)
    else FilterPrefix(xs[1..], prefix)
  }

  /** Filtering keeps the order of the kept strings: it distributes over `+`. */
  lemma {:induction false} FilterPrefixConcat(xs: seq<string>, ys: seq<string>, prefix: string)
    ensures FilterPrefix(xs + ys, prefix) == FilterPrefix(xs, prefix) + FilterPrefix(ys, prefix)
    decreases |xs|
  {
    if |xs| > 0 {
      assert (xs + ys)[1..] == xs[1..] + ys;
      FilterPrefixConcat(xs[1..], ys, prefix);
    } else {
      assert xs + ys == ys;
    }
  }

  // ---------------------------------------------------------------------------
  // trim

  /** The characters ECMAScript's `trim` removes: WhiteSpace and LineTerminator. */
  predicate IsJsWhitespace(c: char)
  {
    var n := c as int;
    n == 0x09 || n == 0x0A || n == 0x0B || n == 0x0C || n == 0x0D || n == 0x20 ||
    n == 0xA0 || n == 0x1680 || (0x2000 <= n <= 0x200A) || n == 0x2028 ||
    n == 0x2029 || n == 0x202F || n == 0x205F || n == 0x3000 || n == 0xFEFF
  }

  /** Drops leading whitespace. */
  function TrimStart(s: string): string
  {
    if |s| > 0 && IsJsWhitespace(s[0]) then TrimStart(s[1..]) else s
  }

  /** Drops trailing whitespace. */
  function TrimEnd(s: string): string
  {
    if |s| > 0 && IsJsWhitespace(s[|s| - 1]) then TrimEnd(s[..|s| - 1]) else s
  }

  /** `s.trim()`. */
  function Trim(s: string): string
  {
    TrimEnd(TrimStart(s))
  }

  /** `TrimStart` cuts a whitespace prefix and stops at the first other character. */
  lemma {:induction false} TrimStartCut(s: string)
    ensures |TrimStart(s)| <= |s| && TrimStart(s) == s[|s| - |TrimStart(s)|..]
    ensures TrimStart(s) == [] || !IsJsWhitespace(TrimStart(s)[0])
    ensures forall k :: 0 <= k < |s| - |TrimStart(s)| ==> IsJsWhitespace(s[k])
    decreases |s|
  {
    if |s| > 0 && IsJsWhitespace(s[0]) {
      TrimStartCut(s[1..]);
      forall k | 1 <= k < |s| - |TrimStart(s)| ensures IsJsWhitespace(s[k]) {
        assert s[k] == s[1..][k - 1];
      }
    }
  }

  /** `TrimEnd` cuts a whitespace suffix and stops at the last other character. */
  lemma {:induction false} TrimEndCut(s: string)
    ensures |TrimEnd(s)| <= |s| && TrimEnd(s) == s[..|TrimEnd(s)|]
    ensures TrimEnd(s) == [] || !IsJsWhitespace(TrimEnd(s)[|TrimEnd(s)| - 1])
    ensures forall k :: |TrimEnd(s)| <= k < |s| ==> IsJsWhitespace(s[k])
    decreases |s|
  {
    if |s| > 0 && IsJsWhitespace(s[|s| - 1]) {
      TrimEndCut(s[..|s| - 1]);
      forall k | |TrimEnd(s)| <= k < |s| - 1 ensures IsJsWhitespace(s[k]) {
        assert s[k] == s[..|s| - 1][k];
      }
    }
  }

  /** A trimmed string is the slice `s[i..j]` of the input with only
      whitespace cut off at either end, and it neither starts nor ends with
      whitespace. */
  lemma TrimIsInnerSlice(s: string) returns (i: nat, j: nat)
    ensures i <= j <= |s| && Trim(s) == s[i..j]
    ensures forall k :: 0 <= k < i ==> IsJsWhitespace(s[k])
    ensures forall k :: j <= k < |s| ==> IsJsWhitespace(s[k])
    ensures Trim(s) == [] || (!IsJsWhitespace(Trim(s)[0]) && !IsJsWhitespace(Trim(s)[|Trim(s)| - 1]))
  {
    var t := TrimStart(s);
    TrimStartCut(s);
    TrimEndCut(t);
    i := |s| - |t|;
    var r := TrimEnd(t);
    j := i + |r|;
    assert r == s[i..j];
    forall k | j <= k < |s| ensures IsJsWhitespace(s[k]) {
      assert s[k] == t[k - i];
    }
    if r != [] && |r| < |t| {
      assert r[0] == t[0];
    }
  }

  // ---------------------------------------------------------------------------
  // the regular expression /p=([^;]+)/

  /** The greedy `[^;]+` run: everything up to the first `;`. */
  function TakeUntilSemicolon(s: string): (r: string)
    ensures r <= s && ';' !in r
    ensures r == s || s[|r|] == ';'
  {
    if |s| == 0 || s[0] == ';' then "" else [s[0]] + TakeUntilSemicolon(s[1..])
  }

  /** The run stops at the first `;`. */
  lemma {:induction false} TakeUntilSemicolonSplit(a: string, b: string)
    requires ';' !in a
    ensures TakeUntilSemicolon(a + ";" + b) == a
    decreases |a|
  {
    if |a| > 0 {
      assert (a + ";" + b)[1..] == a[1..] + ";" + b;
      TakeUntilSemicolonSplit(a[1..], b);
    }
  }

  /** The pattern `p=[^;]` matches at index `i`. */
  ghost predicate PolicyMatchAt(s: string, i: int)
  {
    0 <= i && i + 3 <= |s| && s[i..i + 2] == "p=" && s[i + 2] != ';'
  }

  /** `s.match(/p=([^;]+)/)?.[1]`: the capture of the leftmost match. A `p=`
      directly followed by `;` or by the end does not match, and the search
      moves on; a `p=` inside another tag name (such as `sp=`) does match. */
  function PolicyCapture(s: string): (r: Option<string>)
    ensures r.Some? ==> r.value != "" && ';' !in r.value
    decreases |s|
  {
    if |s| >= 3 && s[..2] == "p=" && s[2] != ';' then Some(TakeUntilSemicolon(s[2..]))
    else if |s| == 0 then None
    else PolicyCapture(s[1..])
  }

  /** The function's own test at the head of `s` is the pattern matching at 0. */
  lemma PolicyMatchAtHead(s: string)
    ensures PolicyMatchAt(s, 0) <==> |s| >= 3 && s[..2] == "p=" && s[2] != ';'
  {
    if |s| >= 3 {
      assert s[0..2] == s[..2];
    }
  }

  /** Dropping the first character moves every later match one step left. */
  lemma PolicyMatchShift(s: string, i: int)
    requires |s| > 0 && i > 0
    ensures PolicyMatchAt(s, i) <==> PolicyMatchAt(s[1..], i - 1)
  {
    if i + 3 <= |s| {
      assert s[1..][i - 1..i + 1] == s[i..i + 2];
    }
  }

  /** No capture exactly when the pattern matches nowhere. */
  lemma {:induction false} PolicyCaptureNone(s: string)
    ensures PolicyCapture(s).None? <==> forall i :: !PolicyMatchAt(s, i)
    decreases |s|
  {
    PolicyMatchAtHead(s);
    if |s| > 0 && !PolicyMatchAt(s, 0) {
      PolicyCaptureNone(s[1..]);
      forall i | PolicyMatchAt(s, i) ensures PolicyMatchAt(s[1..], i - 1) {
        PolicyMatchShift(s, i);
      }
      forall i | PolicyMatchAt(s[1..], i) ensures PolicyMatchAt(s, i + 1) {
        PolicyMatchShift(s, i + 1);
      }
    }
  }

  /** A capture comes from the leftmost match and is the maximal `;`-free run after it. */
  lemma {:induction false} PolicyCaptureLeftmost(s: string) returns (i: nat)
    requires PolicyCapture(s).Some?
    ensures PolicyMatchAt(s, i)
    ensures forall j :: 0 <= j < i ==> !PolicyMatchAt(s, j)
    ensures PolicyCapture(s).value == TakeUntilSemicolon(s[i + 2..])
    decreases |s|
  {
    PolicyMatchAtHead(s);
    if PolicyMatchAt(s, 0) {
      i := 0;
    } else {
      var j := PolicyCaptureLeftmost(s[1..]);
      i := j + 1;
      PolicyMatchShift(s, i);
      assert s[1..][j + 2..] == s[i + 2..];
      forall k | 0 < k < i ensures !PolicyMatchAt(s, k) {
        PolicyMatchShift(s, k);
      }
    }
  }

  /** A match with none before it is the leftmost one, so it gives the capture. */
  lemma PolicyCaptureAt(s: string, i: nat)
    requires PolicyMatchAt(s, i)
    requires forall j :: 0 <= j < i ==> !PolicyMatchAt(s, j)
    ensures PolicyCapture(s) == Some(TakeUntilSemicolon(s[i + 2..]))
  {
    PolicyCaptureNone(s);
    var k := PolicyCaptureLeftmost(s);
    assert PolicyMatchAt(s, k) && PolicyMatchAt(s, i);
    assert k == i;
  }
}
