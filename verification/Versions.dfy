/** The version comparator of the legacy package manager.

    Two cursors walk the two strings.  Runs of '.', '-' and '_' separate
    tokens; all-digit tokens go through strtol, which saturates at LONG_MAX. */
module Versions {
  import opened Text

  const LONG_MAX: nat := 0x7FFF_FFFF_FFFF_FFFF

  predicate IsSeparator(c: char) { c == '.' || c == '-' || c == '_' }

  // ---------------------------------------------------------------- meaning

  /** A token as the comparator sees it. */
  datatype Key = Alpha(text: string) | Num(value: nat)

  /** The length of the longest separator-free prefix. */
  function TokenLength(s: string): (n: nat)
    ensures n <= |s|
    ensures forall k :: 0 <= k < n ==> !IsSeparator(s[k])
    ensures n < |s| ==> IsSeparator(s[n])
  {
    if s == [] || IsSeparator(s[0]) then 0 else 1 + TokenLength(s[1..])
  }

  /** The non-empty pieces between separators, in order. */
  function Tokens(s: string): (ts: seq<string>)
    ensures forall t :: t in ts ==> t != [] && forall k :: 0 <= k < |t| ==> !IsSeparator(t[k])
  {
    if s == [] then []
    else if IsSeparator(s[0]) then Tokens(s[1..])
    else
      var n := TokenLength(s);
      [s[..n]] + Tokens(s[n..])
  }

  function DigitsValue(s: string): nat
    requires AllDigits(s)
  {
    if s == [] then 0
    else DigitsValue(s[..|s| - 1]) * 10 + (s[|s| - 1] as int - '0' as int)
  }

  function Saturate(n: nat): nat { if n > LONG_MAX then LONG_MAX else n }

  function KeyOf(token: string): Key {
    if AllDigits(token) then Num(Saturate(DigitsValue(token))) else Alpha(token)
  }

  function Keys(s: string): (ks: seq<Key>) {
    KeysOf(Tokens(s))
  }

  function KeysOf(ts: seq<string>): (ks: seq<Key>)
    ensures |ks| == |ts|
    ensures forall k :: 0 <= k < |ts| ==> ks[k] == KeyOf(ts[k])
  {
    if ts == [] then [] else [KeyOf(ts[0])] + KeysOf(ts[1..])
  }

  function Sign(n: int): int { if n < 0 then -1 else if n > 0 then 1 else 0 }

  /** Byte-wise order; a proper prefix comes first. */
  function CompareText(a: string, b: string): (r: int)
    ensures -1 <= r <= 1
  {
    if a == [] then (if b == [] then 0 else -1)
    else if b == [] then 1
    else if a[0] != b[0] then Sign(a[0] as int - b[0] as int)
    else CompareText(a[1..], b[1..])
  }

  function CompareKey(a: Key, b: Key): (r: int)
    ensures -1 <= r <= 1
  {
    match (a, b)
    case (Num(x), Num(y)) => Sign(x - y)
    case (Alpha(_), Num(_)) => -1
    case (Num(_), Alpha(_)) => 1
    case (Alpha(x), Alpha(y)) => CompareText(x, y)
  }

  function CompareKeys(a: seq<Key>, b: seq<Key>): (r: int)
    ensures -1 <= r <= 1
  {
    if a == [] then (if b == [] then 0 else -1)
    else if b == [] then 1
    else
      var c := CompareKey(a[0], b[0]);
      if c != 0 then c else CompareKeys(a[1..], b[1..])
  }

  /** What a call of the comparator means: -1, 0 or 1. */
  function VersionOrder(a: string, b: string): (r: int)
    ensures -1 <= r <= 1
  {
    CompareKeys(Keys(a), Keys(b))
  }

  // ---------------------------------------------------- an independent order

  ghost predicate TextBefore(a: string, b: string) {
    exists k: nat :: TextBeforeAt(a, b, k)
  }

  ghost predicate TextBeforeAt(a: string, b: string, k: nat) {
    && k <= |a| && k < |b| && a[..k] == b[..k]
    && (k == |a| || a[k] < b[k])
  }

  ghost predicate KeyBefore(a: Key, b: Key) {
    match (a, b)
    case (Num(x), Num(y)) => x < y
    case (Alpha(_), Num(_)) => true
    case (Num(_), Alpha(_)) => false
    case (Alpha(x), Alpha(y)) => TextBefore(x, y)
  }

  /** `a` and `b` agree on `k` keys, then `a` stops or has the smaller key. */
  ghost predicate KeysBeforeAt(a: seq<Key>, b: seq<Key>, k: nat) {
    && k <= |a| && k < |b| && a[..k] == b[..k]
    && (k == |a| || KeyBefore(a[k], b[k]))
  }

  ghost predicate KeysBefore(a: seq<Key>, b: seq<Key>) {
    exists k: nat :: KeysBeforeAt(a, b, k)
  }

  lemma {:induction false} TextTrichotomy(a: string, b: string)
    ensures CompareText(a, b) == 0 <==> a == b
    ensures CompareText(a, b) == -1 <==> TextBefore(a, b)
    ensures CompareText(b, a) == -CompareText(a, b)
  {
    if a == [] {
      if b != [] { assert TextBeforeAt(a, b, 0); }
    } else if b == [] {
    } else if a[0] != b[0] {
      if a[0] < b[0] { assert TextBeforeAt(a, b, 0); }
    } else {
      TextTrichotomy(a[1..], b[1..]);
      assert a == [a[0]] + a[1..] && b == [b[0]] + b[1..];
      if TextBefore(a[1..], b[1..]) {
        var k: nat :| TextBeforeAt(a[1..], b[1..], k);
        assert a[..k + 1] == [a[0]] + a[1..][..k] && b[..k + 1] == [b[0]] + b[1..][..k];
        assert TextBeforeAt(a, b, k + 1);
      }
      if TextBefore(a, b) {
        var k: nat :| TextBeforeAt(a, b, k);
        assert a[..k][1..] == a[1..][..k - 1] && b[..k][1..] == b[1..][..k - 1];
        assert TextBeforeAt(a[1..], b[1..], k - 1);
      }
    }
  }

  lemma KeyTrichotomy(a: Key, b: Key)
    ensures CompareKey(a, b) == 0 <==> a == b
    ensures CompareKey(a, b) == -1 <==> KeyBefore(a, b)
    ensures CompareKey(b, a) == -CompareKey(a, b)
  {
    if a.Alpha? && b.Alpha? { TextTrichotomy(a.text, b.text); }
  }

  /** The recursive comparison is the lexicographic order on key lists. */
  lemma {:induction false} KeysTrichotomy(a: seq<Key>, b: seq<Key>)
    ensures CompareKeys(a, b) == 0 <==> a == b
    ensures CompareKeys(a, b) == -1 <==> KeysBefore(a, b)
    ensures CompareKeys(b, a) == -CompareKeys(a, b)
  {
    if a == [] {
      if b != [] { assert KeysBeforeAt(a, b, 0); }
    } else if b == [] {
    } else {
      KeyTrichotomy(a[0], b[0]);
      assert a == [a[0]] + a[1..] && b == [b[0]] + b[1..];
      if a[0] != b[0] {
        if KeyBefore(a[0], b[0]) { assert KeysBeforeAt(a, b, 0); }
      } else {
        KeysTrichotomy(a[1..], b[1..]);
        if KeysBefore(a[1..], b[1..]) {
          var k: nat :| KeysBeforeAt(a[1..], b[1..], k);
          assert a[..k + 1] == [a[0]] + a[1..][..k] && b[..k + 1] == [b[0]] + b[1..][..k];
          assert KeysBeforeAt(a, b, k + 1);
        }
        if KeysBefore(a, b) {
          var k: nat :| KeysBeforeAt(a, b, k);
          if k == 0 {
            assert false;
          }
          assert a[..k][1..] == a[1..][..k - 1] && b[..k][1..] == b[1..][..k - 1];
          assert KeysBeforeAt(a[1..], b[1..], k - 1);
        }
      }
    }
  }

  lemma {:induction false} TextTransitive(a: string, b: string, c: string)
    requires CompareText(a, b) <= 0 && CompareText(b, c) <= 0
    ensures CompareText(a, c) <= 0
    ensures CompareText(a, b) < 0 || CompareText(b, c) < 0 ==> CompareText(a, c) < 0
  {
    if a != [] && b != [] && c != [] && a[0] == b[0] == c[0] {
      TextTransitive(a[1..], b[1..], c[1..]);
    }
  }

  lemma KeyTransitive(a: Key, b: Key, c: Key)
    requires CompareKey(a, b) <= 0 && CompareKey(b, c) <= 0
    ensures CompareKey(a, c) <= 0
    ensures CompareKey(a, b) < 0 || CompareKey(b, c) < 0 ==> CompareKey(a, c) < 0
  {
    if a.Alpha? && b.Alpha? && c.Alpha? { TextTransitive(a.text, b.text, c.text); }
  }

  lemma {:induction false} KeysTransitive(a: seq<Key>, b: seq<Key>, c: seq<Key>)
    requires CompareKeys(a, b) <= 0 && CompareKeys(b, c) <= 0
    ensures CompareKeys(a, c) <= 0
    ensures CompareKeys(a, b) < 0 || CompareKeys(b, c) < 0 ==> CompareKeys(a, c) < 0
  {
    if a != [] && b != [] && c != [] {
      KeyTransitive(a[0], b[0], c[0]);
      if CompareKey(a[0], b[0]) == 0 && CompareKey(b[0], c[0]) == 0 {
        KeyTrichotomy(a[0], b[0]);
        KeysTransitive(a[1..], b[1..], c[1..]);
      }
    }
  }

  /** The comparator is a total preorder on all strings.  Two strings tie
      exactly when their tokens have the same keys, and strictly less is the
      lexicographic order on keys. */
  lemma VersionOrderIsTotalPreorder(a: string, b: string, c: string)
    ensures VersionOrder(a, a) == 0
    ensures VersionOrder(b, a) == -VersionOrder(a, b)
    ensures VersionOrder(a, b) <= 0 && VersionOrder(b, c) <= 0 ==> VersionOrder(a, c) <= 0
    ensures VersionOrder(a, b) < 0 && VersionOrder(b, c) <= 0 ==> VersionOrder(a, c) < 0
    ensures VersionOrder(a, b) <= 0 && VersionOrder(b, c) < 0 ==> VersionOrder(a, c) < 0
    ensures VersionOrder(a, b) == 0 <==> Keys(a) == Keys(b)
    ensures VersionOrder(a, b) < 0 <==> KeysBefore(Keys(a), Keys(b))
  {
    KeysTrichotomy(Keys(a), Keys(a));
    KeysTrichotomy(Keys(a), Keys(b));
    if VersionOrder(a, b) <= 0 && VersionOrder(b, c) <= 0 {
      KeysTransitive(Keys(a), Keys(b), Keys(c));
    }
  }

  /** The empty version is never newer than anything. */
  lemma EmptyVersionIsLeast(v: string)
    ensures VersionOrder("", v) <= 0
  {
    assert Keys("") == [];
  }

  // ------------------------------------------------------- tokens and joining

  lemma TokensSkip(s: string)
    requires s != [] && IsSeparator(s[0])
    ensures Tokens(s) == Tokens(s[1..])
  {
  }

  lemma TokensTake(s: string)
    requires s != [] && !IsSeparator(s[0])
    ensures Tokens(s) == [s[..TokenLength(s)]] + Tokens(s[TokenLength(s)..]) && TokenLength(s) > 0
  {
  }

  lemma SlicesOfJoin(x: string, c: char, y: string, n: nat)
    requires n <= |x|
    ensures (x + [c] + y)[..n] == x[..n] && (x + [c] + y)[n..] == x[n..] + [c] + y
  {
  }

  lemma ConsIsAssociative(w: string, a: seq<string>, b: seq<string>)
    ensures [w] + (a + b) == [w] + a + b
  {
  }

  lemma {:induction false} TokensOfJoin(x: string, c: char, y: string)
    requires IsSeparator(c)
    ensures Tokens(x + [c] + y) == Tokens(x) + Tokens(y)
    decreases |x|
  {
    hide Tokens, TokenLength, IsSeparator;
    var s := x + [c] + y;
    if x == [] {
      assert s[0] == c && s[1..] == y;
      TokensSkip(s);
      NoTokens();
    } else {
      assert s[0] == x[0];
      var n := if IsSeparator(x[0]) then 1 else TokenLength(x);
      if IsSeparator(x[0]) {
        TokensSkip(s);
        TokensSkip(x);
      } else {
        TokenLengthOfJoin(x, c, y);
        TokensTake(s);
        TokensTake(x);
        ConsIsAssociative(x[..n], Tokens(x[n..]), Tokens(y));
      }
      SlicesOfJoin(x, c, y, n);
      TokensOfJoin(x[n..], c, y);
    }
  }

  lemma NoTokens()
    ensures Tokens([]) == []
  {
  }

  lemma {:induction false} TokenLengthOfJoin(x: string, c: char, y: string)
    requires IsSeparator(c)
    ensures TokenLength(x + [c] + y) == TokenLength(x)
  {
    var s := x + [c] + y;
    if x == [] {
      assert s[0] == c;
    } else if !IsSeparator(x[0]) {
      assert s[1..] == x[1..] + [c] + y;
      TokenLengthOfJoin(x[1..], c, y);
    }
  }

  lemma {:induction false} KeysOfAppend(a: seq<string>, b: seq<string>)
    ensures KeysOf(a + b) == KeysOf(a) + KeysOf(b)
  {
  }

  lemma {:induction false} CompareKeysCommonPrefix(p: seq<Key>, a: seq<Key>, b: seq<Key>)
    ensures CompareKeys(p + a, p + b) == CompareKeys(a, b)
  {
    if p == [] {
      assert p + a == a && p + b == b;
    } else {
      KeyTrichotomy(p[0], p[0]);
      assert (p + a)[1..] == p[1..] + a && (p + b)[1..] == p[1..] + b;
      CompareKeysCommonPrefix(p[1..], a, b);
    }
  }

  /** Comparing two names that share everything before a separator is
      comparing what follows it. */
  lemma CommonBaseIsIrrelevant(base: string, c: char, v: string, w: string)
    requires IsSeparator(c)
    ensures VersionOrder(base + [c] + v, base + [c] + w) == VersionOrder(v, w)
  {
    TokensOfJoin(base, c, v);
    TokensOfJoin(base, c, w);
    KeysOfAppend(Tokens(base), Tokens(v));
    KeysOfAppend(Tokens(base), Tokens(w));
    CompareKeysCommonPrefix(Keys(base), Keys(v), Keys(w));
  }

  // ------------------------------------------------------------ the C library

  /** strtol(s, NULL, 10) for a string that starts with a digit: it reads past
      the token if digits follow, and saturates at LONG_MAX. */
  function Strtol(s: string): nat { Saturate(DigitsValue(s[..DigitRun(s)])) }

  /** The first nonzero byte difference among the first `n` bytes. */
  method Strncmp(a: string, b: string, n: nat) returns (r: int)
    requires n <= |a| && n <= |b|
    ensures Sign(r) == CompareText(a[..n], b[..n])
  {
    var i := 0;
    while i < n
      invariant 0 <= i <= n
      invariant CompareText(a[..n], b[..n]) == CompareText(a[i..n], b[i..n])
    {
      if a[i] != b[i] {
        return a[i] as int - b[i] as int;
      }
      assert a[i..n][1..] == a[i + 1..n] && b[i..n][1..] == b[i + 1..n];
      i := i + 1;
    }
    return 0;
  }

  lemma {:induction false} CompareTextByMinLength(a: string, b: string, n: nat)
    requires n == if |a| < |b| then |a| else |b|
    ensures CompareText(a, b) ==
            if CompareText(a[..n], b[..n]) != 0 then CompareText(a[..n], b[..n]) else Sign(|a| - |b|)
  {
    if a != [] && b != [] {
      CompareTextByMinLength(a[1..], b[1..], n - 1);
      assert a[..n][1..] == a[1..][..n - 1] && b[..n][1..] == b[1..][..n - 1];
    }
  }

  // ----------------------------------------------------------- the comparator

  method SkipSeparators(s: string, from: nat) returns (p: nat)
    requires from <= |s|
    ensures from <= p <= |s|
    ensures p < |s| ==> !IsSeparator(s[p])
    ensures Tokens(s[p..]) == Tokens(s[from..])
  {
    p := from;
    while p < |s| && IsSeparator(s[p])
      invariant from <= p <= |s|
      invariant Tokens(s[p..]) == Tokens(s[from..])
    {
      assert s[p..][1..] == s[p + 1..];
      p := p + 1;
    }
  }

  /** Advances over one token and reports whether it is all digits. */
  method ScanToken(s: string, from: nat) returns (p: nat, numeric: bool)
    requires from < |s| && !IsSeparator(s[from])
    ensures from < p <= |s|
    ensures numeric == AllDigits(s[from..p])
    ensures Tokens(s[from..]) == [s[from..p]] + Tokens(s[p..])
    ensures p < |s| ==> IsSeparator(s[p])
  {
    hide Tokens;
    p := from;
    numeric := true;
    while p < |s| && !IsSeparator(s[p])
      invariant from <= p <= |s|
      invariant forall k :: from <= k < p ==> !IsSeparator(s[k])
      invariant numeric == forall k :: from <= k < p ==> IsDigit(s[k])
    {
      if !IsDigit(s[p]) {
        numeric := false;
      }
      p := p + 1;
    }
    FirstTokenIs(s, from, p);
  }

  lemma FirstTokenIs(s: string, from: nat, p: nat)
    requires from < p <= |s|
    requires forall k :: from <= k < p ==> !IsSeparator(s[k])
    requires p < |s| ==> IsSeparator(s[p])
    ensures Tokens(s[from..]) == [s[from..p]] + Tokens(s[p..])
  {
    var t := s[from..];
    assert TokenLength(t) == p - from;
    assert t[..p - from] == s[from..p];
    assert t[p - from..] == s[p..];
  }

  /** strtol from the start of an all-digit token stops at its end, because
      only a separator or the end of the string can follow. */
  lemma StrtolReadsTheToken(s: string, from: nat, p: nat)
    requires from < p <= |s| && AllDigits(s[from..p])
    requires p < |s| ==> IsSeparator(s[p])
    ensures KeyOf(s[from..p]) == Num(Strtol(s[from..]))
  {
    var t := s[from..];
    assert forall k :: 0 <= k < p - from ==> t[k] == s[from..p][k];
    assert DigitRun(t) == p - from;
    assert t[..p - from] == s[from..p];
  }

  /** Compares the tokens a[sa..pa] and b[sb..pb]. */
  method CompareToken(a: string, sa: nat, pa: nat, na: bool, b: string, sb: nat, pb: nat, nb: bool)
    returns (r: int)
    requires sa < pa <= |a| && (pa < |a| ==> IsSeparator(a[pa])) && na == AllDigits(a[sa..pa])
    requires sb < pb <= |b| && (pb < |b| ==> IsSeparator(b[pb])) && nb == AllDigits(b[sb..pb])
    ensures Sign(r) == CompareKey(KeyOf(a[sa..pa]), KeyOf(b[sb..pb]))
  {
    var la, lb := pa - sa, pb - sb;
    if na && nb {
      StrtolReadsTheToken(a, sa, pa);
      StrtolReadsTheToken(b, sb, pb);
      var va, vb := Strtol(a[sa..]), Strtol(b[sb..]);
      return if va < vb then -1 else if va > vb then 1 else 0;
    }
    if na != nb {
      return if na then 1 else -1;
    }
    var lm := if la < lb then la else lb;
    var cmp := Strncmp(a[sa..], b[sb..], lm);
    CompareTextByMinLength(a[sa..pa], b[sb..pb], lm);
    assert a[sa..pa][..lm] == a[sa..][..lm] && b[sb..pb][..lm] == b[sb..][..lm];
    return if cmp != 0 then cmp else if la < lb then -1 else if la > lb then 1 else 0;
  }

  /** One step of the walk: the first token decides, or the rests do. */
  lemma CompareAfterToken(a: string, ta: string, resta: string, b: string, tb: string, restb: string)
    requires Tokens(a) == [ta] + Tokens(resta) && Tokens(b) == [tb] + Tokens(restb)
    ensures var c := CompareKey(KeyOf(ta), KeyOf(tb));
            VersionOrder(a, b) == if c != 0 then c else VersionOrder(resta, restb)
  {
    assert Keys(a) == [KeyOf(ta)] + Keys(resta) && Keys(b) == [KeyOf(tb)] + Keys(restb);
  }

  lemma CompareAtTheEnd(a: string, b: string)
    requires a == "" || b == ""
    requires a == "" || !IsSeparator(a[0])
    requires b == "" || !IsSeparator(b[0])
    ensures VersionOrder(a, b) == if a != "" then 1 else if b != "" then -1 else 0
  {
  }

  lemma SameTokensCompareAlike(a: string, a': string, b: string, b': string)
    requires Tokens(a) == Tokens(a') && Tokens(b) == Tokens(b')
    ensures VersionOrder(a, b) == VersionOrder(a', b')
  {
  }

  method CompareVersions(a: string, b: string) returns (r: int)
    ensures Sign(r) == VersionOrder(a, b)
  {
    hide VersionOrder, Tokens, KeyOf, CompareKey;
    var pa, pb := 0, 0;
    assert a[0..] == a && b[0..] == b;
    while pa < |a| || pb < |b|
      invariant pa <= |a| && pb <= |b|
      invariant VersionOrder(a, b) == VersionOrder(a[pa..], b[pb..])
      decreases |a| - pa + |b| - pb
    {
      ghost var qa, qb := pa, pb;
      pa := SkipSeparators(a, pa);
      pb := SkipSeparators(b, pb);
      SameTokensCompareAlike(a[qa..], a[pa..], b[qb..], b[pb..]);
      if pa == |a| || pb == |b| {
        break;
      }
      var sa, sb := pa, pb;
      var na, nb;
      pa, na := ScanToken(a, sa);
      pb, nb := ScanToken(b, sb);
      CompareAfterToken(a[sa..], a[sa..pa], a[pa..], b[sb..], b[sb..pb], b[pb..]);
      r := CompareToken(a, sa, pa, na, b, sb, pb, nb);
      if r != 0 {
        return;
      }
    }
    CompareAtTheEnd(a[pa..], b[pb..]);
    return if pa < |a| then 1 else if pb < |b| then -1 else 0;
  }

  /** Two numbers compare by their values, as far as a 64-bit long goes; beyond
      that they are all the same.  A word comes before every number. */
  lemma NumbersCompareByValue(a: string, b: string)
    requires a != "" && b != "" && AllDigits(a)
    ensures AllDigits(b) && DigitsValue(a) < 0x8000_0000_0000_0000 && DigitsValue(b) < 0x8000_0000_0000_0000 ==>
              VersionOrder(a, b) == Sign(DigitsValue(a) - DigitsValue(b))
    ensures AllDigits(b) && DigitsValue(a) >= 0x7FFF_FFFF_FFFF_FFFF && DigitsValue(b) >= 0x7FFF_FFFF_FFFF_FFFF ==>
              VersionOrder(a, b) == 0
    ensures !AllDigits(b) && (forall k :: 0 <= k < |b| ==> !IsSeparator(b[k])) ==> VersionOrder(a, b) == 1
  {
    hide VersionOrder, DigitsValue, IsSeparator, AllDigits;
    DigitsSeparateNothing(a);
    DigitsSeparateNothing(b);
    if forall k :: 0 <= k < |b| ==> !IsSeparator(b[k]) { SingleTokens(a, b); }
  }

  lemma SingleTokens(a: string, b: string)
    requires a != "" && b != "" && forall k :: 0 <= k < |a| ==> !IsSeparator(a[k])
    requires forall k :: 0 <= k < |b| ==> !IsSeparator(b[k])
    ensures VersionOrder(a, b) == CompareKey(KeyOf(a), KeyOf(b))
  {
    hide KeyOf, CompareKey, Tokens, IsSeparator;
    OneToken(a);
    OneToken(b);
    var x, y := KeyOf(a), KeyOf(b);
    assert Keys(a) == [x] && Keys(b) == [y] && [x][1..] == [] && [y][1..] == [];
    assert CompareKeys([], []) == 0;
  }

  lemma DigitsSeparateNothing(s: string)
    ensures AllDigits(s) ==> forall k :: 0 <= k < |s| ==> !IsSeparator(s[k])
  {
  }

  lemma OneToken(s: string)
    requires s != "" && forall k :: 0 <= k < |s| ==> !IsSeparator(s[k])
    ensures Tokens(s) == [s]
  {
    assert TokenLength(s) == |s| && s[..|s|] == s && s[|s|..] == [];
    assert Tokens([]) == [];
  }
}
