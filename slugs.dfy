/**
 * Slugs: the directory name a newly saved font gets (FontLoader.js line 250),
 * `name.replace(/ +/g, "-").replace(/[^a-z0-9\-]+/gi, "")`, and the
 * collision candidates the save loop tries after it (lines 252-256).
 */
module Slugs {

  /** The characters the second replacement keeps: ASCII letters of either case, digits, '-'. */
  predicate IsSlugChar(c: char) {
    ('a' <= c <= 'z') || ('A' <= c <= 'Z') || ('0' <= c <= '9') || c == '-'
  }

  /** A string of k spaces. */
  function Spaces(k: nat): (s: string)
    ensures |s| == k && forall i :: 0 <= i < k ==> s[i] == ' '
  {
    if k == 0 then "" else " " + Spaces(k - 1)
  }

  /** The length of the leading run of spaces of s. */
  function LeadingSpaces(s: string): (n: nat)
    ensures n <= |s|
    ensures n < |s| ==> s[n] != ' '
    ensures s != "" && s[0] == ' ' ==> n >= 1
    ensures n > 0 ==> s[n - 1] == ' '
  {
    if s != "" && s[0] == ' ' then 1 + LeadingSpaces(s[1..]) else 0
  }

  /** The first replacement, `/ +/g` by "-": every run of spaces becomes one hyphen. */
  function HyphenateSpaces(s: string): (r: string)
    ensures ' ' !in r
    ensures |r| <= |s|
    decreases |s|
  {
    if s == "" then ""
    else if s[0] == ' ' then "-" + HyphenateSpaces(s[LeadingSpaces(s)..])
    else [s[0]] + HyphenateSpaces(s[1..])
  }

  /** The second replacement: every character outside [A-Za-z0-9-] is removed. */
  function StripDisallowed(s: string): (r: string)
    ensures forall c :: c in r ==> IsSlugChar(c)
    ensures forall c :: c in s && IsSlugChar(c) ==> c in r
    ensures |r| <= |s|
    ensures (forall c :: c in s ==> IsSlugChar(c)) ==> r == s
  {
    if s == "" then ""
    else if IsSlugChar(s[0]) then [s[0]] + StripDisallowed(s[1..])
    else StripDisallowed(s[1..])
  }

  /** The location slug of a font name (line 250). */
  function Slug(name: string): (r: string)
    ensures forall c :: c in r ==> IsSlugChar(c)
    ensures |r| <= |name|
  {
    StripDisallowed(HyphenateSpaces(name))
  }

  /** A name made only of slug characters is its own slug. */
  lemma SlugOfSlugChars(name: string)
    requires forall c :: c in name ==> IsSlugChar(c)
    ensures Slug(name) == name
  {
    HyphenateNoSpaces(name);
  }

  /** A string with no space is left alone by the first replacement. */
  lemma {:induction false} HyphenateNoSpaces(s: string)
    requires ' ' !in s
    ensures HyphenateSpaces(s) == s
    decreases |s|
  {
    if s != "" {
      assert ' ' !in s[1..];
      HyphenateNoSpaces(s[1..]);
    }
  }

  /** Slug is idempotent: a slug is its own slug. */
  lemma SlugIdempotent(name: string)
    ensures Slug(Slug(name)) == Slug(name)
  {
    SlugOfSlugChars(Slug(name));
  }

  /** No run of spaces crosses the boundary between a and b. */
  predicate NoRunAcross(a: string, b: string) {
    a == "" || b == "" || a[|a| - 1] != ' ' || b[0] != ' '
  }

  lemma {:induction false} LeadingSpacesConcat(a: string, b: string)
    ensures LeadingSpaces(a) < |a| ==> LeadingSpaces(a + b) == LeadingSpaces(a)
    ensures LeadingSpaces(a) == |a| ==> LeadingSpaces(a + b) == |a| + LeadingSpaces(b)
    decreases |a|
  {
    if a == "" {
      assert a + b == b;
    } else if a[0] == ' ' {
      assert (a + b)[1..] == a[1..] + b;
      LeadingSpacesConcat(a[1..], b);
    } else {
      assert (a + b)[0] == a[0];
    }
  }

  /** The first replacement distributes over a concatenation that splits no run of spaces. */
  lemma {:induction false} HyphenateConcat(a: string, b: string)
    requires NoRunAcross(a, b)
    ensures HyphenateSpaces(a + b) == HyphenateSpaces(a) + HyphenateSpaces(b)
    decreases |a|
  {
    if a == "" {
      assert a + b == b;
    } else if a[0] != ' ' {
      assert (a + b)[0] == a[0];
      assert (a + b)[1..] == a[1..] + b;
      HyphenateConcat(a[1..], b);
      ConcatAssoc([a[0]], HyphenateSpaces(a[1..]), HyphenateSpaces(b));
    } else {
      assert (a + b)[0] == ' ';
      LeadingSpacesConcat(a, b);
      var n := LeadingSpaces(a);
      if n == |a| {
        assert a[|a| - 1] == ' ';
        assert LeadingSpaces(b) == 0;
        assert (a + b)[n..] == b;
        assert a[n..] == "";
      } else {
        assert (a + b)[n..] == a[n..] + b;
        assert a[n..][|a[n..]| - 1] == a[|a| - 1];
        HyphenateConcat(a[n..], b);
        ConcatAssoc("-", HyphenateSpaces(a[n..]), HyphenateSpaces(b));
      }
    }
  }

  lemma {:induction false} AllSpaces(k: nat)
    ensures LeadingSpaces(Spaces(k)) == k
  {
    if k > 0 {
      assert Spaces(k)[1..] == Spaces(k - 1);
      AllSpaces(k - 1);
    }
  }

  /** Each maximal run of spaces, whatever its length, becomes exactly one hyphen. */
  lemma SpaceRunBecomesOneHyphen(a: string, k: nat, b: string)
    requires k > 0
    requires a == "" || a[|a| - 1] != ' '
    requires b == "" || b[0] != ' '
    ensures HyphenateSpaces(a + Spaces(k) + b) == HyphenateSpaces(a) + "-" + HyphenateSpaces(b)
  {
    var sp := Spaces(k);
    AllSpaces(k);
    assert sp[k..] == "";
    assert HyphenateSpaces(sp) == "-";
    assert NoRunAcross(sp, b);
    HyphenateConcat(sp, b);
    var rest := sp + b;
    assert rest[0] == ' ';
    assert NoRunAcross(a, rest);
    HyphenateConcat(a, rest);
    var ha, hb := HyphenateSpaces(a), HyphenateSpaces(b);
    assert HyphenateSpaces(rest) == "-" + hb;
    ConcatAssoc(a, sp, b);
    ConcatAssoc(ha, "-", hb);
  }

  lemma ConcatAssoc(x: string, y: string, z: string)
    ensures x + y + z == x + (y + z)
  {
  }

  /** Stripping disallowed characters works piecewise over a concatenation. */
  lemma {:induction false} StripConcat(a: string, b: string)
    ensures StripDisallowed(a + b) == StripDisallowed(a) + StripDisallowed(b)
    decreases |a|
  {
    if a == "" {
      assert a + b == b;
    } else {
      assert (a + b)[0] == a[0];
      assert (a + b)[1..] == a[1..] + b;
      StripConcat(a[1..], b);
    }
  }

  /** Characters that the second replacement strips and the first leaves alone. */
  lemma {:induction false} StripJunk(t: string)
    requires forall c :: c in t ==> !IsSlugChar(c) && c != ' '
    ensures HyphenateSpaces(t) == t
    ensures StripDisallowed(t) == ""
    decreases |t|
  {
    HyphenateNoSpaces(t);
    if t != "" {
      assert forall c :: c in t[1..] ==> c in t;
      StripJunk(t[1..]);
    }
  }

  /**
   * Two words separated by a run of spaces and followed by punctuation give
   * "word-word": "My Font!" is stored under "My-Font".
   */
  lemma SlugOfTwoWords(a: string, k: nat, b: string, t: string)
    requires a != "" && b != "" && k > 0
    requires forall c :: c in a ==> IsSlugChar(c)
    requires forall c :: c in b ==> IsSlugChar(c)
    requires forall c :: c in t ==> !IsSlugChar(c) && c != ' '
    ensures Slug(a + Spaces(k) + b + t) == a + "-" + b
  {
    var bt := b + t;
    HyphenateNoSpaces(a);
    HyphenateNoSpaces(b);
    StripJunk(t);
    assert bt[0] == b[0];
    HyphenateConcat(b, t);
    SpaceRunBecomesOneHyphen(a, k, bt);
    ConcatAssoc(a + Spaces(k), b, t);
    var h := HyphenateSpaces(a + Spaces(k) + b + t);
    assert h == a + "-" + b + t;
    StripConcat(a + "-" + b, t);
    SlugOfSlugChars(a + "-" + b);
  }

  /** The character of a decimal digit. */
  function DigitChar(d: nat): (c: char)
    requires d < 10
    ensures '0' <= c <= '9'
  {
    "0123456789"[d]
  }

  /** The decimal text of n, as `"_" + index` produces it. */
  function Digits(n: nat): (r: string)
    ensures |r| >= 1
    ensures forall c :: c in r ==> '0' <= c <= '9'
    ensures forall i :: 0 <= i < |r| ==> '0' <= r[i] <= '9'
    decreases n
  {
    if n < 10 then [DigitChar(n)] else Digits(n / 10) + [DigitChar(n % 10)]
  }

  /** The number a string of decimal digits denotes, most significant digit first. */
  function DecimalValue(s: string): (v: nat)
    requires forall i :: 0 <= i < |s| ==> '0' <= s[i] <= '9'
    decreases |s|
  {
    if s == "" then 0
    else DecimalValue(s[..|s| - 1]) * 10 + (s[|s| - 1] as int - '0' as int)
  }

  /** Digits is the decimal numeral of n: reading it back gives n. */
  lemma {:induction false} DigitsValue(n: nat)
    ensures DecimalValue(Digits(n)) == n
    decreases n
  {
    if n >= 10 {
      DigitsValue(n / 10);
      var d := Digits(n);
      assert d[..|d| - 1] == Digits(n / 10);
    }
  }

  /**
   * The location tried after k collisions. Each retry appends "_" and the retry
   * count to the PREVIOUS candidate (line 255), so the candidates are
   * slug, slug_1, slug_1_2, slug_1_2_3, ...
   */
  function Candidate(slug: string, k: nat): (c: string)
    ensures |c| >= |slug| + 2 * k
  {
    if k == 0 then slug else Candidate(slug, k - 1) + "_" + Digits(k)
  }

  /**
   * Every candidate starts with the slug and adds only '_' and digits: it
   * never holds a path separator.
   */
  lemma {:induction false} CandidateChars(slug: string, k: nat)
    ensures Candidate(slug, k)[..|slug|] == slug
    ensures forall ch :: ch in Candidate(slug, k) ==> ch in slug || ch == '_' || '0' <= ch <= '9'
    ensures forall i :: |slug| <= i < |Candidate(slug, k)| ==>
      Candidate(slug, k)[i] == '_' || '0' <= Candidate(slug, k)[i] <= '9'
  {
    if k > 0 {
      CandidateChars(slug, k - 1);
      var prev := Candidate(slug, k - 1);
      var c := Candidate(slug, k);
      assert c == prev + "_" + Digits(k);
      assert c[..|slug|] == prev[..|slug|];
      forall i | |slug| <= i < |c|
        ensures c[i] == '_' || '0' <= c[i] <= '9'
      {
        if i < |prev| {
          assert c[i] == prev[i];
        } else if i > |prev| {
          assert c[i] == Digits(k)[i - |prev| - 1];
        }
      }
      forall ch | ch in Candidate(slug, k)
        ensures ch in slug || ch == '_' || '0' <= ch <= '9'
      {
        assert ch in prev || ch == '_' || ch in Digits(k);
      }
    }
  }

  /** Later candidates are strictly longer, so no candidate is tried twice. */
  lemma CandidatesGrow(slug: string, k: nat)
    ensures |Candidate(slug, k)| < |Candidate(slug, k + 1)|
  {
  }

  /** Two different collision counts give two different candidates. */
  lemma {:induction false} CandidatesDistinct(slug: string, j: nat, k: nat)
    requires j < k
    ensures |Candidate(slug, j)| < |Candidate(slug, k)|
    ensures Candidate(slug, j) != Candidate(slug, k)
    decreases k
  {
    if j < k - 1 {
      CandidatesDistinct(slug, j, k - 1);
    }
  }

  /** The first three candidates for "My-Font" are "My-Font", "My-Font_1" and "My-Font_1_2". */
  lemma ThirdCandidate()
    ensures Candidate("My-Font", 0) == "My-Font"
    ensures Candidate("My-Font", 1) == "My-Font_1"
    ensures Candidate("My-Font", 2) == "My-Font_1_2"
  {
  }
}
