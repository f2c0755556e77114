/** The keys, together with what the scans meet, decide the answers. */
module WizardRuns {
  import opened Text
  import opened Wizard
  import opened WizardKeys

  /** Wherever both runs scan, they meet the same names. */
  predicate SameScans(a: seq<Answer>, b: seq<Answer>) {
    forall i :: 0 <= i < |a| && i < |b| && a[i].Scan? && b[i].Scan? ==> a[i].names == b[i].names
  }

  /** A box ends at the first Enter or Esc. */
  lemma FirstEnd(keys: seq<Key>, from: nat, to: nat, ok: bool, to': nat, ok': bool)
    requires from <= to <= |keys| && from <= to' <= |keys|
    requires Ended(keys[from..to], ok) && Ended(keys[from..to'], ok')
    ensures to == to' && ok == ok'
  {
    LastKey(keys, from, to);
    LastKey(keys, from, to');
    if to <= to' { EndIsLast(keys, from, to', ok', to - 1); } else { EndIsLast(keys, from, to, ok, to' - 1); }
  }

  lemma EndIsLast(keys: seq<Key>, from: nat, to: nat, ok: bool, j: nat)
    requires from <= j < to <= |keys| && Ended(keys[from..to], ok) && Ends(keys[j])
    ensures j == to - 1
  {
    LastKey(keys, from, to);
    forall i | from <= i < to - 1 ensures !Ends(keys[i]) { assert keys[from..to - 1][i - from] == keys[i]; }
  }

  lemma DismissedOnce(keys: seq<Key>, from: nat, to: nat, to': nat)
    requires from <= to <= |keys| && from <= to' <= |keys|
    requires IsDismissed(keys[from..to]) && IsDismissed(keys[from..to'])
    ensures to == to'
  {
    hide Ended;
    var ok, ok' := Ended(keys[from..to], true), Ended(keys[from..to'], true);
    FirstEnd(keys, from, to, ok, to', ok');
  }

  /** How the stretch of an answer ends, whatever the answer. */
  lemma AnswerEnds(s: State, a: Answer, ks: seq<Key>)
    requires Explains(s, a, ks) && !a.Pair?
    ensures IsDismissed(ks)
  {
    hide Edited, Cursor, Offered;
  }

  /** Two readings of one stretch on one page are the same answer. */
  lemma SameAnswer(s: State, a: Answer, b: Answer, ks: seq<Key>)
    requires Explains(s, a, ks) && Explains(s, b, ks) && (a.Scan? && b.Scan? ==> a.names == b.names)
    ensures a == b
  {
    hide Edited, Cursor, Offered;
    if a.Pair? {
      var k: nat :| EnteredPair(ks, k, a.first, a.second);
      var k': nat :| EnteredPair(ks, k', b.first, b.second);
      SamePair(ks, k, k', a.first, a.second, b.first, b.second);
    }
  }

  lemma SamePair(ks: seq<Key>, k: nat, k': nat, first: string, second: Option<string>, first': string,
                 second': Option<string>)
    requires EnteredPair(ks, k, first, second) && EnteredPair(ks, k', first', second')
    ensures k == k' && first == first' && second == second'
  {
    hide Edited, Ended;
    PairBegins(ks, k, first, second);
    PairBegins(ks, k', first', second');
    FirstEnd(ks, 0, k + 1, k + 1 < |ks|, k' + 1, k' + 1 < |ks|);
    if k + 1 < |ks| {
      assert ks[k + 1..] == ks[k + 1..|ks|];
      FirstEnd(ks, k + 1, |ks|, second.Some?, |ks|, second'.Some?);
    }
  }

  lemma PairBegins(ks: seq<Key>, k: nat, first: string, second: Option<string>)
    requires EnteredPair(ks, k, first, second)
    ensures k < |ks| && Ended(ks[0..k + 1], k + 1 < |ks|)
    ensures Entered(ks[0..k + 1], "", PASSWORD_SIZE, first, k + 1 < |ks|)
  {
    hide Edited, Ended;
    assert ks[..k + 1] == ks[0..k + 1] && (k + 1 == |ks| ==> ks[0..k + 1] == ks);
  }

  /** The two password boxes end where the keys say. */
  lemma PairOnce(keys: seq<Key>, from: nat, to: nat, a: Answer, to': nat, b: Answer)
    requires from <= to <= |keys| && from <= to' <= |keys| && a.Pair? && b.Pair?
    requires exists k :: EnteredPair(keys[from..to], k, a.first, a.second)
    requires exists k :: EnteredPair(keys[from..to'], k, b.first, b.second)
    ensures to == to'
  {
    hide Edited, Ended;
    var ks, ks' := keys[from..to], keys[from..to'];
    var k: nat :| EnteredPair(ks, k, a.first, a.second);
    var k': nat :| EnteredPair(ks', k', b.first, b.second);
    PairBegins(ks, k, a.first, a.second);
    PairBegins(ks', k', b.first, b.second);
    assert ks[0..k + 1] == keys[from..from + k + 1] && ks'[0..k' + 1] == keys[from..from + k' + 1];
    FirstEnd(keys, from, from + k + 1, k + 1 < |ks|, from + k' + 1, k' + 1 < |ks'|);
    if k + 1 < |ks| {
      var mid := from + k + 1;
      assert ks[k + 1..] == keys[mid..to] && ks'[k' + 1..] == keys[mid..to'];
      FirstEnd(keys, mid, to, a.second.Some?, to', b.second.Some?);
    }
  }

  /** On one page, from one key on, the answers of two readings are the same. */
  lemma SameStretchRead(s: State, keys: seq<Key>, from: nat, to: nat, a: Answer, to': nat, b: Answer)
    requires from <= to <= |keys| && from <= to' <= |keys|
    requires Explains(s, a, keys[from..to]) && Explains(s, b, keys[from..to'])
    requires a.Scan? && b.Scan? ==> a.names == b.names
    ensures to == to' && a == b
  {
    assert a.Pair? <==> b.Pair?;
    if a.Pair? {
      PairOnce(keys, from, to, a, to', b);
    } else {
      hide Explains, IsDismissed;
      AnswerEnds(s, a, keys[from..to]);
      AnswerEnds(s, b, keys[from..to']);
      DismissedOnce(keys, from, to, to');
    }
    SameAnswer(s, a, b, keys[from..to]);
  }

  /** The keys between two answers end where the keys say. */
  lemma SameGap(s: State, noticed: bool, keys: seq<Key>, end: nat, x: Stretch, a: Answer, y: Stretch, b: Answer)
    requires end <= x.from <= x.to <= |keys| && end <= y.from <= y.to <= |keys|
    requires Explains(s, a, keys[x.from..x.to]) && Explains(s, b, keys[y.from..y.to])
    requires IsGap(s, noticed, a, keys[end..x.from]) && IsGap(s, noticed, b, keys[end..y.from])
    ensures x.from == y.from
  {
    hide Edited, Cursor, Ended, Offered;
    assert a.Phrase? <==> b.Phrase?;
    if noticed {
      DismissedOnce(keys, end, x.from, y.from);
    } else if s.page == ConfirmPage {
      WarningOnce(keys, end, x, a.typed, y, b.typed);
    }
  }

  /** Before a phrase the warning is accepted with Enter; an Esc there counts as
      no phrase. */
  lemma WarningOnce(keys: seq<Key>, end: nat, x: Stretch, a: Option<string>, y: Stretch, b: Option<string>)
    requires end <= x.from <= x.to <= |keys| && end <= y.from <= y.to <= |keys|
    requires Ended(keys[x.from..x.to], a.Some?) && Ended(keys[y.from..y.to], b.Some?)
    requires Ended(keys[end..x.from], true) || (a.None? && keys[end..x.from] == [])
    requires Ended(keys[end..y.from], true) || (b.None? && keys[end..y.from] == [])
    ensures x.from == y.from
  {
    assert keys[end..x.from] == [] ==> x.from == end;
    assert keys[end..y.from] == [] ==> y.from == end;
    if x.from == end && y.from != end {
      FirstEnd(keys, end, x.to, false, y.from, true);
    } else if y.from == end && x.from != end {
      FirstEnd(keys, end, y.to, false, x.from, true);
    } else if x.from != end {
      FirstEnd(keys, end, x.from, true, y.from, true);
    }
  }

  /** Two explanations of the same keys agree as far as both go. */
  lemma {:induction false} KeysDecide(
    keys: seq<Key>, a: seq<Answer>, x: seq<Stretch>, b: seq<Answer>, y: seq<Stretch>, n: nat)
    requires Explained(keys, a, x) && Explained(keys, b, y) && SameScans(a, b) && n <= |a| && n <= |b|
    ensures a[..n] == b[..n] && x[..n] == y[..n]
  {
    hide Explains, IsGap, Play, IsNoticed;
    if n > 0 {
      var i := n - 1;
      KeysDecide(keys, a, x, b, y, i);
      assert ExplainedAt(keys, a, x, i) && ExplainedAt(keys, b, y, i);
      var s, end := Play(a[..i]), EndOf(x[..i]);
      SameGap(s, IsNoticed(a[..i]), keys, end, x[i], a[i], y[i], b[i]);
      SameStretchRead(s, keys, x[i].from, x[i].to, a[i], y[i].to, b[i]);
      assert a[..n] == a[..i] + [a[i]] && b[..n] == b[..i] + [b[i]];
      assert x[..n] == x[..i] + [x[i]] && y[..n] == y[..i] + [y[i]];
    }
  }

  /** A run that has ended is the only one its keys and scans explain: what the
      program returns is what any explanation of the keys says. */
  lemma EndedRunIsTheOnlyOne(keys: seq<Key>, a: seq<Answer>, x: seq<Stretch>, b: seq<Answer>, y: seq<Stretch>)
    requires Explained(keys, a, x) && Explained(keys, b, y) && SameScans(a, b)
    requires !Play(a).Asking? && !Play(b).Asking?
    ensures a == b && x == y
  {
    hide IsGap, Play, IsNoticed;
    var n := if |a| <= |b| then |a| else |b|;
    KeysDecide(keys, a, x, b, y, n);
    assert a[..|a|] == a && b[..|b|] == b && x[..|x|] == x && y[..|y|] == y;
    AsksBefore(keys, a, x);
    AsksBefore(keys, b, y);
  }

  lemma AsksBefore(keys: seq<Key>, a: seq<Answer>, x: seq<Stretch>)
    requires Explained(keys, a, x)
    ensures forall i :: 0 <= i < |a| ==> Play(a[..i]).Asking?
  {
    hide IsGap, Play, IsNoticed;
    forall i | 0 <= i < |a| ensures Play(a[..i]).Asking? { assert ExplainedAt(keys, a, x, i); }
  }

  // --------------------------------------------------------------- waiting

  /** From here on the keys end no box. */
  predicate IsQuiet(keys: seq<Key>, from: nat) { from <= |keys| && NoEnds(keys[from..]) }

  /** The boxes of an answer, opened at `from`, wait for more keys. */
  ghost predicate BoxWaits(page: Page, keys: seq<Key>, from: nat) {
    || IsQuiet(keys, from)
    || (HasPasswords(page) && exists mid: nat :: EndsAt(keys, from, mid, true) && IsQuiet(keys, mid))
  }

  predicate EndsAt(keys: seq<Key>, from: nat, to: nat, ok: bool) {
    from <= to <= |keys| && Ended(keys[from..to], ok)
  }

  /** The page waits for more keys: for its message to be dismissed, or for the
      warning to be accepted, or for its boxes. */
  ghost predicate Waits(page: Page, noticed: bool, keys: seq<Key>, end: nat) {
    || IsQuiet(keys, end)
    || (noticed && exists mid: nat, ok :: EndsAt(keys, end, mid, ok) && BoxWaits(page, keys, mid))
    || (!noticed && page == ConfirmPage && exists mid: nat :: EndsAt(keys, end, mid, true) && IsQuiet(keys, mid))
    || (!noticed && BoxWaits(page, keys, end))
  }

  lemma EndIsLoud(keys: seq<Key>, from: nat, to: nat, ok: bool)
    requires EndsAt(keys, from, to, ok)
    ensures forall mid: nat :: mid < to ==> !IsQuiet(keys, mid)
    ensures from < to
  {
    LastKey(keys, from, to);
    forall mid: nat | mid < to ensures !IsQuiet(keys, mid) { assert keys[mid..][to - 1 - mid] == keys[to - 1]; }
  }

  /** Where the boxes wait, no answer has been read. */
  lemma BoxHasNoAnswer(s: State, a: Answer, keys: seq<Key>, from: nat, to: nat)
    requires from <= to <= |keys| && Explains(s, a, keys[from..to])
    ensures !BoxWaits(s.page, keys, from) && from < to && forall mid: nat :: mid < to ==> !IsQuiet(keys, mid)
  {
    hide Ended, IsQuiet;
    if a.Pair? {
      PairIsLoud(keys, from, to, a);
    } else {
      assert IsDismissed(keys[from..to]) by {
        hide Explains;
        AnswerEnds(s, a, keys[from..to]);
      }
      var ok := Ended(keys[from..to], true);
      assert !HasPasswords(s.page);
      hide Explains;
      EndIsLoud(keys, from, to, ok);
    }
  }

  lemma PairIsLoud(keys: seq<Key>, from: nat, to: nat, a: Answer)
    requires from <= to <= |keys| && a.Pair? && exists k :: EnteredPair(keys[from..to], k, a.first, a.second)
    ensures from < to && forall mid: nat :: mid < to ==> !IsQuiet(keys, mid)
    ensures forall mid: nat :: EndsAt(keys, from, mid, true) ==> mid < to
  {
    hide Edited, Ended, IsQuiet;
    var ks := keys[from..to];
    var k: nat :| EnteredPair(ks, k, a.first, a.second);
    PairBegins(ks, k, a.first, a.second);
    var mid := from + k + 1;
    assert ks[0..k + 1] == keys[from..mid];
    forall m: nat | EndsAt(keys, from, m, true) ensures m == mid && k + 1 < |ks| {
      FirstEnd(keys, from, mid, k + 1 < |ks|, m, true);
    }
    if k + 1 < |ks| {
      assert ks[k + 1..] == keys[mid..to];
      EndIsLoud(keys, mid, to, a.second.Some?);
    } else {
      EndIsLoud(keys, from, to, false);
    }
  }

  /** Where a page waits, its next answer has not been read. */
  lemma WaitingHasNoAnswer(s: State, noticed: bool, keys: seq<Key>, end: nat, a: Answer, x: Stretch)
    requires end <= x.from <= x.to <= |keys| && Explains(s, a, keys[x.from..x.to])
    requires IsGap(s, noticed, a, keys[end..x.from])
    ensures !Waits(s.page, noticed, keys, end)
  {
    hide Ended, IsQuiet, BoxWaits;
    BoxHasNoAnswer(s, a, keys, x.from, x.to);
    assert s.page == ConfirmPage ==> a.Phrase? && Ended(keys[x.from..x.to], a.typed.Some?) by {
      hide Edited, Cursor, Offered;
    }
    hide Explains;
    if noticed {
      forall mid: nat, ok | EndsAt(keys, end, mid, ok) ensures mid == x.from { DismissedOnce(keys, end, x.from, mid); }
    } else if s.page == ConfirmPage {
      QuietConfirm(keys, end, a.typed, x);
      assert !HasPasswords(s.page);
      ConfirmWaits(keys, end);
    } else {
      assert keys[end..x.from] == [] && x.from == end;
    }
  }

  lemma ConfirmWaits(keys: seq<Key>, end: nat)
    ensures BoxWaits(ConfirmPage, keys, end) ==> IsQuiet(keys, end)
  {
  }

  lemma QuietConfirm(keys: seq<Key>, end: nat, typed: Option<string>, x: Stretch)
    requires end <= x.from <= x.to <= |keys| && Ended(keys[x.from..x.to], typed.Some?)
    requires Ended(keys[end..x.from], true) || (typed.None? && keys[end..x.from] == [])
    ensures forall mid: nat :: EndsAt(keys, end, mid, true) ==> mid < x.to
  {
    hide Ended;
    EndIsLoud(keys, x.from, x.to, typed.Some?);
    assert keys[end..x.from] == [] ==> x.from == end;
    forall mid: nat | EndsAt(keys, end, mid, true) ensures mid < x.to {
      if Ended(keys[end..x.from], true) {
        FirstEnd(keys, end, x.from, true, mid, true);
      } else {
        FirstEnd(keys, end, x.to, false, mid, true);
      }
    }
  }

  /** While the program waits, no run that its keys and scans explain has ended. */
  lemma WaitingRunHasNotEnded(keys: seq<Key>, a: seq<Answer>, x: seq<Stretch>, b: seq<Answer>, y: seq<Stretch>)
    requires Explained(keys, a, x) && Explained(keys, b, y) && SameScans(a, b)
    requires Play(a).Asking? && Waits(Play(a).page, IsNoticed(a), keys, EndOf(x))
    ensures Play(b).Asking? && |b| <= |a|
  {
    hide IsGap, Play, IsNoticed, Explains, Waits;
    var n := if |a| <= |b| then |a| else |b|;
    KeysDecide(keys, a, x, b, y, n);
    assert a[..|a|] == a && b[..|b|] == b && x[..|x|] == x;
    AsksBefore(keys, a, x);
    if n < |b| {
      assert ExplainedAt(keys, b, y, n);
      WaitingHasNoAnswer(Play(a), IsNoticed(a), keys, EndOf(x), b[n], y[n]);
    }
  }

  /** The program either waits or has ended.  If some explanation of its keys
      and scans has ended, so has the program, with the same answers. */
  lemma ProgramAgrees(keys: seq<Key>, a: seq<Answer>, x: seq<Stretch>, b: seq<Answer>, y: seq<Stretch>)
    requires Explained(keys, a, x) && Explained(keys, b, y) && SameScans(a, b) && !Play(b).Asking?
    requires Play(a).Asking? ==> Waits(Play(a).page, IsNoticed(a), keys, EndOf(x))
    ensures a == b
  {
    hide Play, IsNoticed, Waits, Explained;
    if Play(a).Asking? {
      WaitingRunHasNotEnded(keys, a, x, b, y);
    } else {
      EndedRunIsTheOnlyOne(keys, a, x, b, y);
    }
  }
}
