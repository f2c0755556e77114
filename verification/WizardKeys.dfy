/** What key strokes mean to the wizard: which stretch of keys is which answer,
    and how a whole run reads its keys. */
module WizardKeys {
  import opened Text
  import opened AccountFiles
  import opened Wizard

  datatype Key = EnterKey | EscKey | UpKey | DownKey | BackspaceKey | CharKey(c: char) | OtherKey

  const BOX_WIDTH := 58
  const PART_SIZE := 32
  const PASSWORD_SIZE := 128

  // ------------------------------------------------------ single key strokes

  predicate Ends(k: Key) { k.EnterKey? || k.EscKey? }

  predicate IsPrintable(c: char) { ' ' <= c <= '~' }

  lemma PrintableByCode(c: char)
    ensures IsPrintable(c) <==> 32 <= c as int <= 126
  {
  }

  function Typed(text: string, k: Key, size: nat): string {
    if k.BackspaceKey? && text != "" then text[..|text| - 1]
    else if k.CharKey? && IsPrintable(k.c) && |text| + 1 < size && |text| < BOX_WIDTH then text + [k.c]
    else text
  }

  /** The text after some key strokes. */
  function Edited(text: string, ks: seq<Key>, size: nat): string {
    if ks == [] then text else Typed(Edited(text, ks[..|ks| - 1], size), ks[|ks| - 1], size)
  }

  function Moved(cursor: nat, k: Key, count: nat): nat {
    if k.UpKey? && cursor > 0 then cursor - 1 else if k.DownKey? && cursor + 1 < count then cursor + 1 else cursor
  }

  /** The menu entry under the cursor after some key strokes. */
  function Cursor(cursor: nat, ks: seq<Key>, count: nat): nat {
    if ks == [] then cursor else Moved(Cursor(cursor, ks[..|ks| - 1], count), ks[|ks| - 1], count)
  }

  /** What a text box can hold. */
  predicate IsTypeable(text: string, size: nat) {
    |text| < size && |text| <= BOX_WIDTH && forall k :: 0 <= k < |text| ==> IsPrintable(text[k])
  }

  /** Typing never leaves what a text box can hold. */
  lemma {:induction false} EditedIsTypeable(text: string, ks: seq<Key>, size: nat)
    requires IsTypeable(text, size)
    ensures IsTypeable(Edited(text, ks, size), size)
  {
    if ks != [] { EditedIsTypeable(text, ks[..|ks| - 1], size); }
  }

  lemma EditedOnce(text: string, keys: seq<Key>, from: nat, to: nat, size: nat)
    requires from <= to < |keys|
    ensures Edited(text, keys[from..to + 1], size) == Typed(Edited(text, keys[from..to], size), keys[to], size)
  {
    var ks := keys[from..to + 1];
    assert ks[..|ks| - 1] == keys[from..to] && ks[|ks| - 1] == keys[to];
  }

  lemma CursorOnce(cursor: nat, keys: seq<Key>, from: nat, to: nat, count: nat)
    requires from <= to < |keys|
    ensures Cursor(cursor, keys[from..to + 1], count) == Moved(Cursor(cursor, keys[from..to], count), keys[to], count)
  {
    var ks := keys[from..to + 1];
    assert ks[..|ks| - 1] == keys[from..to] && ks[|ks| - 1] == keys[to];
  }

  lemma NothingTyped(text: string, keys: seq<Key>, at: nat, size: nat, cursor: nat, count: nat)
    requires at <= |keys|
    ensures Edited(text, keys[at..at], size) == text && Cursor(cursor, keys[at..at], count) == cursor
  {
  }

  // ------------------------------------------------- which keys are an answer

  predicate NoEnds(ks: seq<Key>) { forall k :: 0 <= k < |ks| ==> !Ends(ks[k]) }

  /** The keys before the last one. */
  function Strokes(ks: seq<Key>): seq<Key>
    requires ks != []
  {
    ks[..|ks| - 1]
  }

  /** One box read this stretch: it ends with Enter or with Esc, and only there. */
  predicate Ended(ks: seq<Key>, ok: bool) {
    ks != [] && ks[|ks| - 1] == (if ok then EnterKey else EscKey) && NoEnds(Strokes(ks))
  }

  /** A message was shown and dismissed. */
  predicate IsDismissed(ks: seq<Key>) { Ended(ks, true) || Ended(ks, false) }

  /** A menu of `count` entries, opened at `start`, read this stretch as `index`. */
  predicate Picked(ks: seq<Key>, start: nat, index: int, count: nat) {
    if index >= 0 then Ended(ks, true) && index == Cursor(start, Strokes(ks), count)
    else index == -1 && Ended(ks, false)
  }

  /** A text box that showed `initial` read this stretch as `text`. */
  predicate Entered(ks: seq<Key>, initial: string, size: nat, text: string, ok: bool) {
    Ended(ks, ok) && text == Edited(initial, Strokes(ks), size)
  }

  /** The two password boxes read this stretch, the first one its first `k` + 1 keys. */
  predicate EnteredPair(ks: seq<Key>, k: nat, first: string, second: Option<string>) {
    && k < |ks|
    && (if k + 1 == |ks| then second.None? && Entered(ks, "", PASSWORD_SIZE, first, false)
        else
          && Entered(ks[..k + 1], "", PASSWORD_SIZE, first, true)
          && Ended(ks[k + 1..], second.Some?)
          && (second.Some? ==> Entered(ks[k + 1..], "", PASSWORD_SIZE, second.value, true)))
  }

  function Shown(page: Page, draft: Draft): string {
    match page
    case PartSizePage => draft.cfg.partSize
    case HostnamePage => draft.cfg.hostname
    case _ => draft.cfg.username
  }

  function BoxSize(page: Page): nat { if page == PartSizePage then PART_SIZE else NAME_SIZE }

  /** Where the menu of a page is opened. */
  function MenuStart(page: Page, draft: Draft, count: nat): nat {
    match page
    case ActionPage => Index(draft.cfg.action)
    case MediaPage => Clamped(draft.mediaAt, count)
    case DiskPage => Clamped(draft.diskAt, count)
    case BootPage => if draft.cfg.uefi then 1 else 0
    case _ => if draft.cfg.acpiOff then 1 else 0
  }

  function MenuCount(page: Page): nat { if page == ActionPage then |ACTIONS| else 2 }

  predicate HasButton(page: Page) { page == Welcome || page == SummaryPage }

  predicate HasMenu(page: Page) { page == ActionPage || page == BootPage || page == AcpiPage }

  predicate HasScan(page: Page) { page == MediaPage || page == DiskPage }

  predicate HasText(page: Page) { page == PartSizePage || page == HostnamePage || page == UserPage }

  predicate HasPasswords(page: Page) { page == UserPassPage || page == RootPassPage }

  /** The stretch of keys, read on this page, is that answer. */
  ghost predicate Explains(s: State, a: Answer, ks: seq<Key>) {
    s.Asking? &&
    match a
    case Press(ok) => HasButton(s.page) && Ended(ks, ok)
    case Pick(i) => HasMenu(s.page) && Picked(ks, MenuStart(s.page, s.draft, MenuCount(s.page)), i, MenuCount(s.page))
    case Scan(names, i) =>
      HasScan(s.page) &&
      var count := |Offered(s.page, s.draft, names)|;
      if count == 0 then i == -1 && IsDismissed(ks) else Picked(ks, MenuStart(s.page, s.draft, count), i, count)
    case Enter(text, ok) => HasText(s.page) && Entered(ks, Shown(s.page, s.draft), BoxSize(s.page), text, ok)
    case Pair(first, second) => HasPasswords(s.page) && exists k :: EnteredPair(ks, k, first, second)
    case Phrase(typed) =>
      s.page == ConfirmPage &&
      if typed.Some? then Entered(ks, "", PHRASE_SIZE, typed.value, true) else Ended(ks, false)
  }

  /** The answer is turned down with a message. */
  predicate IsRejected(s: State, a: Answer) {
    s.Asking? &&
    match a
    case Enter(text, ok) => s.page == UserPage && ok && !IsValidUsername(text)
    case Pair(first, second) => HasPasswords(s.page) && second.Some? && !(first != "" && first == second.value)
    case Phrase(typed) => s.page == ConfirmPage && typed.Some? && !Matches(s.draft.cfg, typed.value)
    case _ => false
  }

  ghost predicate IsNoticed(answers: seq<Answer>) {
    answers != [] && IsRejected(Play(answers[..|answers| - 1]), answers[|answers| - 1])
  }

  /** The keys between two answers: those that dismiss a message about the last
      one, or accept the warning before a phrase, or none. */
  predicate IsGap(s: State, noticed: bool, a: Answer, gap: seq<Key>) {
    if noticed then IsDismissed(gap)
    else if s.Asking? && s.page == ConfirmPage && a.Phrase? then
      Ended(gap, true) || (a.typed.None? && gap == [])
    else gap == []
  }

  /** The keys from `from` up to `to`. */
  datatype Stretch = Stretch(from: nat, to: nat)

  function EndOf(parts: seq<Stretch>): nat { if parts == [] then 0 else parts[|parts| - 1].to }

  ghost predicate ExplainedAt(keys: seq<Key>, answers: seq<Answer>, parts: seq<Stretch>, i: nat)
    requires i < |parts| == |answers|
  {
    var end := EndOf(parts[..i]);
    && end <= parts[i].from <= parts[i].to <= |keys|
    && Explains(Play(answers[..i]), answers[i], keys[parts[i].from..parts[i].to])
    && IsGap(Play(answers[..i]), IsNoticed(answers[..i]), answers[i], keys[end..parts[i].from])
  }

  /** Every answer is read from its stretch of the keys, one after the other,
      with nothing but messages between. */
  ghost predicate Explained(keys: seq<Key>, answers: seq<Answer>, parts: seq<Stretch>) {
    && |parts| == |answers|
    && (forall i :: 0 <= i < |parts| ==> ExplainedAt(keys, answers, parts, i))
  }

  /** One more answer, and more keys after the ones read so far. */
  lemma ExplainedGrows(
    keys: seq<Key>, answers: seq<Answer>, parts: seq<Stretch>, all: seq<Key>, a: Answer, x: Stretch)
    requires Explained(keys, answers, parts) && keys <= all
    requires EndOf(parts) <= x.from <= x.to <= |all|
    requires Explains(Play(answers), a, all[x.from..x.to])
    requires IsGap(Play(answers), IsNoticed(answers), a, all[EndOf(parts)..x.from])
    ensures Explained(all, answers + [a], parts + [x])
  {
    hide Explains, IsGap, Play, IsNoticed;
    var more, parts' := answers + [a], parts + [x];
    assert more[..|answers|] == answers && parts'[..|parts|] == parts;
    forall i | 0 <= i < |answers| ensures ExplainedAt(all, more, parts', i) {
      assert ExplainedAt(keys, answers, parts, i);
      assert more[..i] == answers[..i] && parts'[..i] == parts[..i];
      SameStretch(keys, all, parts[i].from, parts[i].to);
      SameStretch(keys, all, EndOf(parts[..i]), parts[i].from);
    }
  }

  lemma SameStretch(keys: seq<Key>, all: seq<Key>, from: nat, to: nat)
    requires keys <= all && from <= to <= |keys|
    ensures all[from..to] == keys[from..to]
  {
  }

  lemma ExplainedFront(keys: seq<Key>, answers: seq<Answer>, parts: seq<Stretch>)
    requires Explained(keys, answers, parts) && answers != []
    ensures Explained(keys, answers[..|answers| - 1], parts[..|parts| - 1])
  {
    hide Explains, IsGap, Play, IsNoticed;
    var front, parts' := answers[..|answers| - 1], parts[..|parts| - 1];
    forall i | 0 <= i < |front| ensures ExplainedAt(keys, front, parts', i) {
      assert ExplainedAt(keys, answers, parts, i);
      assert front[..i] == answers[..i] && parts'[..i] == parts[..i];
    }
  }

  lemma LastKey(keys: seq<Key>, from: nat, to: nat)
    requires from < to <= |keys|
    ensures var ks := keys[from..to]; ks[|ks| - 1] == keys[to - 1] && Strokes(ks) == keys[from..to - 1]
  {
  }

  lemma PairOfBoxes(keys: seq<Key>, from: nat, mid: nat, to: nat, first: string, second: Option<string>)
    requires from < mid < to <= |keys|
    requires Entered(keys[from..mid], "", PASSWORD_SIZE, first, true)
    requires Ended(keys[mid..to], second.Some?)
    requires second.Some? ==> Entered(keys[mid..to], "", PASSWORD_SIZE, second.value, true)
    ensures exists k :: EnteredPair(keys[from..to], k, first, second)
  {
    hide Edited, Ended;
    var ks, k := keys[from..to], mid - from - 1;
    assert ks[..k + 1] == keys[from..mid] && ks[k + 1..] == keys[mid..to];
    assert EnteredPair(ks, k, first, second);
  }

  // -------------------------------------------------- what the keys guarantee

  /** The answer that led to the summary is the phrase that was typed. */
  lemma {:induction false} PhraseWasTyped(answers: seq<Answer>)
    ensures var s := Play(answers);
            s.Accepted? || (s.Asking? && s.page == SummaryPage) ==> Phrase(Some(s.draft.phrase)) in answers
  {
    if answers != [] {
      var before, a := answers[..|answers| - 1], answers[|answers| - 1];
      PhraseWasTyped(before);
      PhraseStep(Play(before), a);
      hide Play;
      assert forall b :: b in before ==> b in answers;
      assert a in answers;
      assert Play(answers) == Advance(Play(before), a) by {
        Leads(before, Play(before), a, Advance(Play(before), a));
        assert before + [a] == answers;
      }
    }
  }

  lemma PhraseStep(s: State, a: Answer)
    ensures var t := Advance(s, a);
            t.Accepted? || (t.Asking? && t.page == SummaryPage) ==>
              || a == Phrase(Some(t.draft.phrase))
              || ((s.Accepted? || (s.Asking? && s.page == SummaryPage)) && s.draft.phrase == t.draft.phrase)
  {
    hide IsValidUsername, Offered, Matches;
  }

  /** Somewhere, `text` was typed into an empty box and confirmed. */
  ghost predicate WasEntered(keys: seq<Key>, size: nat, text: string) {
    exists from: nat, to: nat :: from < to <= |keys| && Entered(keys[from..to], "", size, text, true)
  }

  lemma AcceptedPhraseWasEntered(keys: seq<Key>, answers: seq<Answer>, parts: seq<Stretch>)
    requires Explained(keys, answers, parts) && Play(answers).Accepted?
    ensures WasEntered(keys, PHRASE_SIZE, Play(answers).draft.phrase)
  {
    hide Play, Edited, IsGap;
    PhraseWasTyped(answers);
    var i :| 0 <= i < |answers| && answers[i] == Phrase(Some(Play(answers).draft.phrase));
    assert ExplainedAt(keys, answers, parts, i);
  }

  /** All texts fit the boxes they are typed into. */
  predicate AreTypeable(d: Draft) {
    && IsTypeable(d.cfg.partSize, PART_SIZE) && IsTypeable(d.cfg.hostname, NAME_SIZE)
    && IsTypeable(d.cfg.username, NAME_SIZE)
    && IsTypeable(d.cfg.password, PASSWORD_SIZE) && IsTypeable(d.cfg.rootPassword, PASSWORD_SIZE)
    && IsTypeable(d.phrase, PHRASE_SIZE)
  }

  lemma DefaultsAreTypeable()
    ensures AreTypeable(START.draft) && IsTypeable(DEFAULT_HOSTNAME, NAME_SIZE) && IsTypeable("", PHRASE_SIZE)
  {
  }

  predicate AnswerIsTypeable(s: State, a: Answer) {
    match a
    case Enter(text, _) => s.Asking? && IsTypeable(text, BoxSize(s.page))
    case Pair(first, _) => IsTypeable(first, PASSWORD_SIZE)
    case Phrase(typed) => typed.Some? ==> IsTypeable(typed.value, PHRASE_SIZE)
    case _ => true
  }

  lemma ExplainedAnswerIsTypeable(s: State, a: Answer, ks: seq<Key>)
    requires Explains(s, a, ks) && AreTypeable(s.draft)
    ensures AnswerIsTypeable(s, a)
  {
    hide Edited, IsTypeable;
    DefaultsAreTypeable();
    match a
    case Enter(text, ok) => EditedIsTypeable(Shown(s.page, s.draft), Strokes(ks), BoxSize(s.page));
    case Pair(first, second) =>
      var k: nat :| EnteredPair(ks, k, first, second);
      assert IsTypeable("", PASSWORD_SIZE) by { EmptyIsTypeable(PASSWORD_SIZE); }
      EditedIsTypeable("", Strokes(if k + 1 == |ks| then ks else ks[..k + 1]), PASSWORD_SIZE);
    case Phrase(typed) => if typed.Some? { EditedIsTypeable("", Strokes(ks), PHRASE_SIZE); }
    case _ =>
  }

  lemma EmptyIsTypeable(size: nat)
    requires size > 0
    ensures IsTypeable("", size)
  {
  }

  lemma AdvanceKeepsTypeable(s: State, a: Answer)
    requires s.Asking? && AreTypeable(s.draft) && AnswerIsTypeable(s, a)
    ensures Advance(s, a).Quit? || AreTypeable(Advance(s, a).draft)
  {
    DefaultsAreTypeable();
    hide IsTypeable, IsValidUsername, Offered, Matches;
  }

  lemma {:induction false} ExplainedIsTypeable(keys: seq<Key>, answers: seq<Answer>, parts: seq<Stretch>)
    requires Explained(keys, answers, parts)
    ensures Play(answers).Quit? || AreTypeable(Play(answers).draft)
  {
    if answers == [] {
      DefaultsAreTypeable();
    } else {
      var n := |answers| - 1;
      var before, a := answers[..n], answers[n];
      ExplainedFront(keys, answers, parts);
      ExplainedIsTypeable(keys, before, parts[..n]);
      assert ExplainedAt(keys, answers, parts, n);
      hide Advance, AreTypeable, IsGap;
      ExplainedAnswerIsTypeable(Play(before), a, keys[parts[n].from..parts[n].to]);
      AdvanceKeepsTypeable(Play(before), a);
    }
  }
}
