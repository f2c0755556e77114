/** The wizard as it runs: boxes that read key strokes, the loop over the
    pages, and the installer run behind it. */
module WizardScreens {
  import opened Text
  import opened Devices
  import opened AccountFiles
  import opened InstallerRun
  import opened Wizard
  import opened WizardKeys
  import opened WizardRuns

  // ------------------------------------------- the machine, page by page

  /** The draft after one round of the password boxes. */
  function WithPassword(page: Page, d: Draft, first: string, second: Option<string>): Draft {
    if page == UserPassPage
    then d.(cfg := d.cfg.(password := first), userAgain := if second.Some? then second.value else d.userAgain)
    else d.(cfg := d.cfg.(rootPassword := first), rootAgain := if second.Some? then second.value else d.rootAgain)
  }

  lemma PasswordAnswer(page: Page, d: Draft, first: string, second: Option<string>)
    requires HasPasswords(page)
    ensures Advance(Asking(page, d), Pair(first, second)) ==
            var e := WithPassword(page, d, first, second);
            if second.None? then Back(page, e)
            else if first != "" && first == second.value then Forward(page, e) else Asking(page, e)
  {
    hide Choosing, Setting, Confirming;
  }

  lemma PasswordKeepsMenus(page: Page, d: Draft, first: string, second: Option<string>)
    ensures var e := WithPassword(page, d, first, second).cfg;
            e.action == d.cfg.action && e.uefi == d.cfg.uefi && e.acpiOff == d.cfg.acpiOff
  {
  }

  lemma MediaAnswer(d: Draft, names: seq<string>, i: int)
    requires -1 <= i < |Offered(MediaPage, d, names)|
    ensures var offered := Offered(MediaPage, d, names);
            Advance(Asking(MediaPage, d), Scan(names, i)) ==
            if offered == [] then Back(MediaPage, d)
            else if i < 0 then Back(MediaPage, d.(mediaAt := Clamped(d.mediaAt, |offered|)))
            else Forward(MediaPage, PickMedia(d, i, offered[i]))
  {
    hide Setting, Naming, Confirming, Offered;
  }

  lemma DiskAnswer(d: Draft, names: seq<string>, i: int)
    requires -1 <= i < |Offered(DiskPage, d, names)|
    ensures var offered := Offered(DiskPage, d, names);
            Advance(Asking(DiskPage, d), Scan(names, i)) ==
            if offered == [] then Back(DiskPage, d)
            else if i < 0 then Back(DiskPage, d.(diskAt := Clamped(d.diskAt, |offered|)))
            else Forward(DiskPage, d.(diskAt := i, cfg := d.cfg.(disk := offered[i])))
  {
    hide Setting, Naming, Confirming, Offered;
  }

  lemma UserAnswer(d: Draft, text: string, ok: bool)
    ensures Advance(Asking(UserPage, d), Enter(text, ok)) ==
            var e := d.(cfg := d.cfg.(username := text));
            if !ok then Back(UserPage, e)
            else if IsValidUsername(text) then Forward(UserPage, e)
            else Asking(UserPage, e)
  {
    hide Choosing, Setting, Confirming, IsValidUsername;
  }

  lemma PhraseAnswer(d: Draft, typed: Option<string>)
    ensures Advance(Asking(ConfirmPage, d), Phrase(typed)) ==
            if typed.None? then Back(ConfirmPage, d)
            else
              var e := d.(phrase := typed.value);
              if Matches(d.cfg, typed.value) then Forward(ConfirmPage, e) else Asking(ConfirmPage, e)
  {
    hide Choosing, Setting, Naming, Matches;
  }

  /** The chosen media is apart from the target if what was mounted is. */
  /** The settings call for this step. */
  ghost predicate IsMeant(cfg: Settings, s: Step) {
    match s
    case FormatEfi(_) => cfg.uefi && !cfg.action.Update?
    case MountEfi(_) => cfg.uefi && cfg.action.Install?
    case WriteEfiLoader => cfg.uefi && cfg.action.Install?
    case WriteBootSector(_) => !cfg.uefi && cfg.action.Install?
    case Partition(_) => !cfg.action.Update?
    case FormatRoot(_) => !cfg.action.Update?
    case MountRoot(_) => !cfg.action.FormatOnly?
    case WriteAccounts => cfg.action.Install?
    case ExtractRoot => cfg.action.Install?
    case UpdateSystem => cfg.action.Update?
    case _ => true
  }

  /** A run takes no step that its settings do not call for. */
  lemma StepsAreMeant(t: Trouble, cfg: Config, settings: Settings, host: Host, media: Option<string>, outcome: Outcome,
                      trace: seq<Step>)
    requires InstallerRun.IsRun(t, cfg, host, media, outcome, trace)
    requires cfg == Config(settings.media, settings.disk, settings.action, settings.uefi)
    ensures forall s :: s in trace ==> IsMeant(settings, s)
  {
    hide IsFound, Refuses, Script, RootPart, EfiPart;
    if trace != [] {
      var steps := Script(cfg, Retries(t, cfg));
      forall s | s in trace ensures IsMeant(settings, s) {
        var k :| 0 <= k < |trace| && trace[k] == s;
        assert steps[k] == s;
        ScriptContains(cfg, Retries(t, cfg), s);
      }
    }
  }

  lemma MediaIsApart(cfg: Config, host: Host, mounted: string)
    requires cfg.disk != cfg.media && IsDisk(cfg.disk) && IsMediaOf(cfg, host, mounted) && Apart(cfg.disk, mounted)
    ensures Apart(cfg.disk, cfg.media)
  {
    DiskStem(cfg.disk, cfg.media);
    if Belongs(cfg.disk, cfg.media) { PartitionIsNoDisk(cfg.disk, cfg.media); }
  }

  class Screen {
    const keys: seq<Key>
    var at: nat
    var page: Page
    var draft: Draft
    var actionAt: nat
    var bootAt: nat
    var acpiAt: nat
    ghost var answers: seq<Answer>
    /** The keys each answer was read from. */
    ghost var parts: seq<Stretch>

    constructor (keys: seq<Key>)
      ensures Valid() && this.keys == keys && answers == []
    {
      this.keys, at, page, draft := keys, 0, START.page, START.draft;
      actionAt, bootAt, acpiAt := 0, 0, 0;
      answers, parts := [], [];
    }

    /** The screen shows what the answers so far lead to, and the keys read so
        far explain these answers. */
    ghost predicate Shows()
      reads this
    {
      && EndOf(parts) <= at <= |keys| && Play(answers) == Asking(page, draft) && Explained(keys, answers, parts)
      && actionAt == Index(draft.cfg.action) && bootAt == (if draft.cfg.uefi then 1 else 0)
      && acpiAt == (if draft.cfg.acpiOff then 1 else 0)
    }

    /** Besides, a message about the last answer has been dismissed and nothing
        else has been read since. */
    ghost predicate Valid()
      reads this
    {
      && Shows()
      && if IsNoticed(answers) then page != ConfirmPage && IsDismissed(keys[EndOf(parts)..at]) else at == EndOf(parts)
    }

    /** All keys are used up, and the page waits for more. */
    ghost predicate Stuck()
      reads this
    {
      Shows() && at == |keys| && Waits(page, IsNoticed(answers), keys, EndOf(parts))
    }

    /** The boxes opened at `from`, right after the page appeared, wait. */
    lemma IsStuck(from: nat)
      requires Shows() && at == |keys| && BoxWaits(page, keys, from) && EndOf(parts) <= from <= |keys|
      requires if IsNoticed(answers) then IsDismissed(keys[EndOf(parts)..from])
               else from == EndOf(parts) || (page == ConfirmPage && Ended(keys[EndOf(parts)..from], true))
      ensures Stuck()
    {
      hide Play, Explained, IsNoticed, Ended, BoxWaits, IsQuiet;
      var end := EndOf(parts);
      assert IsNoticed(answers) ==> EndsAt(keys, end, from, Ended(keys[end..from], true));
      assert !IsNoticed(answers) && from != end ==> EndsAt(keys, end, from, true);
      if page == ConfirmPage { ConfirmWaits(keys, from); }
    }

    /** message_box: None when the keys run out. */
    method MessageBox() returns (r: Option<bool>)
      requires at <= |keys|
      modifies this`at
      ensures old(at) <= at <= |keys|
      ensures r.Some? ==> at > old(at) && Ended(keys[old(at)..at], r.value)
      ensures r.None? ==> at == |keys| && IsQuiet(keys, old(at))
    {
      while at < |keys|
        invariant old(at) <= at <= |keys| && NoEnds(keys[old(at)..at])
      {
        at := at + 1;
        LastKey(keys, old(at), at);
        if Ends(keys[at - 1]) {
          return Some(keys[at - 1].EnterKey?);
        }
      }
      assert keys[old(at)..at] == keys[old(at)..];
      return None;
    }

    /** menu_box: the entry under the cursor, or -1 after Esc. */
    method MenuBox(count: nat, selected: nat) returns (r: Option<int>)
      requires at <= |keys| && selected < count
      modifies this`at
      ensures old(at) <= at <= |keys|
      ensures r.None? ==> at == |keys| && IsQuiet(keys, old(at))
      ensures r.Some? ==> at > old(at) && -1 <= r.value < count && Picked(keys[old(at)..at], selected, r.value, count)
    {
      hide Cursor;
      var cursor := selected;
      NothingTyped("", keys, at, 0, selected, count);
      while at < |keys|
        invariant old(at) <= at <= |keys| && cursor < count && NoEnds(keys[old(at)..at])
        invariant cursor == Cursor(selected, keys[old(at)..at], count)
      {
        CursorOnce(selected, keys, old(at), at, count);
        var k := keys[at];
        at := at + 1;
        LastKey(keys, old(at), at);
        if k.EnterKey? {
          return Some(cursor);
        }
        if k.EscKey? {
          return Some(-1);
        }
        cursor := Moved(cursor, k, count);
      }
      assert keys[old(at)..at] == keys[old(at)..];
      return None;
    }

    /** input_box: the text as edited, and whether Enter or Esc ended it. */
    method InputBox(initial: string, size: nat) returns (text: string, r: Option<bool>)
      requires at <= |keys|
      modifies this`at
      ensures old(at) <= at <= |keys|
      ensures r.None? ==> at == |keys| && IsQuiet(keys, old(at))
      ensures r.Some? ==> at > old(at) && Entered(keys[old(at)..at], initial, size, text, r.value)
    {
      hide Edited, Typed;
      text := initial;
      NothingTyped(initial, keys, at, size, 0, 0);
      while at < |keys|
        invariant old(at) <= at <= |keys| && NoEnds(keys[old(at)..at])
        invariant text == Edited(initial, keys[old(at)..at], size)
      {
        EditedOnce(initial, keys, old(at), at, size);
        var k := keys[at];
        at := at + 1;
        LastKey(keys, old(at), at);
        if Ends(k) {
          return text, Some(k.EnterKey?);
        }
        text := Typed(text, k, size);
      }
      assert keys[old(at)..at] == keys[old(at)..];
      return text, None;
    }

    /** A scan of the block devices: any names, none if the scan fails. */
    method ScanNames() returns (names: seq<string>)
    {
      names := *;
    }

    /** The answer read since `from` leads to `t`. */
    ghost method Record(a: Answer, from: nat, s: State, t: State)
      requires Play(answers) == s && Advance(s, a) == t && Explained(keys, answers, parts)
      requires EndOf(parts) <= from <= at <= |keys| && Explains(s, a, keys[from..at])
      requires IsGap(s, IsNoticed(answers), a, keys[EndOf(parts)..from])
      modifies this`answers, this`parts
      ensures Play(answers) == t && Explained(keys, answers, parts) && EndOf(parts) == at
      ensures IsNoticed(answers) <==> IsRejected(s, a)
    {
      hide Explains, Explained, Advance, Play, IsGap, IsRejected;
      Leads(answers, s, a, t);
      ExplainedGrows(keys, answers, parts, keys, a, Stretch(from, at));
      assert (answers + [a])[..|answers|] == answers;
      answers, parts := answers + [a], parts + [Stretch(from, at)];
    }

    /** STEP_WELCOME */
    method AskWelcome() returns (r: Option<bool>)
      requires Valid() && page == Welcome
      modifies this
      ensures old(at) <= at && (r == Some(true) ==> at > old(at) && Valid()) && (r.None? ==> Stuck())
      ensures r == Some(false) ==> Play(answers) == Quit && Explained(keys, answers, parts)
    {
      hide Setting, Naming, Confirming, Offered, Play, Explained, IsNoticed, Ended;
      ghost var from, shown := at, Asking(page, draft);
      var ok := MessageBox();
      if ok == Some(true) {
        page := Next(page, draft.cfg.action);
        Record(Press(true), from, shown, Asking(page, draft));
      } else if ok == Some(false) {
        Record(Press(false), from, shown, Quit);
      } else {
        IsStuck(from);
      }
      return ok;
    }

    /** STEP_ACTION */
    method AskAction() returns (more: bool)
      requires Valid() && page == ActionPage
      modifies this
      ensures old(at) <= at && if more then at > old(at) && Valid() else Stuck()
    {
      hide Setting, Naming, Confirming, Offered, Play, Explained, IsNoticed, Picked, IsDismissed;
      ghost var from, shown := at, Asking(page, draft);
      var selected := MenuBox(|ACTIONS|, actionAt);
      if selected.None? {
        IsStuck(from);
        return false;
      }
      if selected.value < 0 {
        page := Previous(page, draft.cfg.action);
      } else {
        actionAt := selected.value;
        draft := draft.(cfg := draft.cfg.(action := ACTIONS[selected.value]));
        page := Next(page, draft.cfg.action);
      }
      Record(Pick(selected.value), from, shown, Asking(page, draft));
      return true;
    }

    /** The menu of a device page; a message instead if it would be empty. */
    method DeviceMenu(count: nat, start: nat) returns (selected: Option<int>)
      requires at <= |keys| && (count > 0 ==> start < count)
      modifies this`at
      ensures old(at) <= at <= |keys|
      ensures selected.None? ==> at == |keys| && IsQuiet(keys, old(at))
      ensures selected.Some? ==> at > old(at) && -1 <= selected.value < count
      ensures selected.Some? ==>
        if count == 0 then IsDismissed(keys[old(at)..at]) else Picked(keys[old(at)..at], start, selected.value, count)
    {
      hide Picked, Cursor;
      if count == 0 {
        var ok := MessageBox();
        return if ok.Some? then Some(-1) else None;
      }
      selected := MenuBox(count, start);
    }

    /** STEP_MEDIA */
    method AskMedia() returns (more: bool)
      requires Valid() && page == MediaPage
      modifies this
      ensures old(at) <= at && if more then at > old(at) && Valid() else Stuck()
    {
      hide Offered, Play, Explained, Picked, IsNoticed, IsDismissed;
      ghost var from := at;
      var names := ScanNames();
      var media := Offered(page, draft, names);
      var start := Clamped(draft.mediaAt, |media|);
      var selected := DeviceMenu(|media|, start);
      if selected.None? {
        IsStuck(from);
        return false;
      }
      TakeMedia(names, selected.value, from);
      return true;
    }

    /** The media chosen since `from`, or Esc. */
    method TakeMedia(names: seq<string>, index: int, ghost from: nat)
      requires Shows() && page == MediaPage && EndOf(parts) <= from <= at
      requires IsGap(Asking(page, draft), IsNoticed(answers), Scan(names, index), keys[EndOf(parts)..from])
      requires -1 <= index < |Offered(page, draft, names)|
      requires Explains(Asking(page, draft), Scan(names, index), keys[from..at])
      modifies this`page, this`draft, this`answers, this`parts
      ensures Valid()
    {
      hide Advance, Next, Previous, Play, Explained, Explains, Offered, IsNoticed, IsGap;
      ghost var shown := Asking(page, draft);
      var media := Offered(page, draft, names);
      MediaAnswer(draft, names, index);
      if index < 0 {
        if media != [] {
          draft := draft.(mediaAt := Clamped(draft.mediaAt, |media|));
        }
        page := Previous(page, draft.cfg.action);
      } else {
        draft := draft.(mediaAt := index, cfg := draft.cfg.(media := media[index]));
        if draft.cfg.disk == draft.cfg.media {
          draft := draft.(diskAt := 0, cfg := draft.cfg.(disk := ""));
        }
        page := Next(page, draft.cfg.action);
      }
      Record(Scan(names, index), from, shown, Asking(page, draft));
    }

    /** The loop that leaves out the install media. */
    method FilterTargets(found: seq<string>, media: string) returns (targets: seq<string>)
      ensures targets == Targets(found, media)
    {
      targets := [];
      var i := 0;
      while i < |found|
        invariant 0 <= i <= |found| && targets == Targets(found[..i], media)
      {
        assert found[..i + 1][..i] == found[..i];
        if IsAvailable(found[i], media) {
          targets := targets + [found[i]];
        }
        i := i + 1;
      }
      assert found[..i] == found;
    }

    /** STEP_DISK */
    method AskDisk() returns (more: bool)
      requires Valid() && page == DiskPage
      modifies this
      ensures old(at) <= at && if more then at > old(at) && Valid() else Stuck()
    {
      hide Targets, Found, Play, Explained, Picked, IsNoticed, IsDismissed;
      ghost var from := at;
      var names := ScanNames();
      var targets := FilterTargets(Found(names, false), draft.cfg.media);
      var start := Clamped(draft.diskAt, |targets|);
      var selected := DeviceMenu(|targets|, start);
      if selected.None? {
        IsStuck(from);
        return false;
      }
      TakeDisk(names, targets, selected.value, from);
      return true;
    }

    /** The target chosen since `from`, or Esc. */
    method TakeDisk(names: seq<string>, targets: seq<string>, index: int, ghost from: nat)
      requires Shows() && page == DiskPage && EndOf(parts) <= from <= at
      requires IsGap(Asking(page, draft), IsNoticed(answers), Scan(names, index), keys[EndOf(parts)..from])
      requires targets == Offered(page, draft, names) && -1 <= index < |targets|
      requires Explains(Asking(page, draft), Scan(names, index), keys[from..at])
      modifies this`page, this`draft, this`answers, this`parts
      ensures Valid()
    {
      hide Advance, Next, Previous, Play, Explained, Explains, Offered, IsNoticed, IsGap;
      ghost var shown := Asking(page, draft);
      DiskAnswer(draft, names, index);
      if index < 0 {
        if targets != [] {
          draft := draft.(diskAt := Clamped(draft.diskAt, |targets|));
        }
        page := Previous(page, draft.cfg.action);
      } else {
        draft := draft.(diskAt := index, cfg := draft.cfg.(disk := targets[index]));
        page := Next(page, draft.cfg.action);
      }
      Record(Scan(names, index), from, shown, Asking(page, draft));
    }

    /** STEP_BOOT and STEP_ACPI */
    method AskSwitch() returns (more: bool)
      requires Valid() && (page == BootPage || page == AcpiPage)
      modifies this
      ensures old(at) <= at && if more then at > old(at) && Valid() else Stuck()
    {
      hide Choosing, Naming, Confirming, Offered, Play, Explained, IsNoticed, Picked, IsDismissed;
      ghost var from, shown := at, Asking(page, draft);
      var selected := MenuBox(2, if page == BootPage then bootAt else acpiAt);
      if selected.None? {
        IsStuck(from);
        return false;
      }
      if selected.value < 0 {
        page := Previous(page, draft.cfg.action);
      } else if page == BootPage {
        bootAt := selected.value;
        draft := draft.(cfg := draft.cfg.(uefi := selected.value == 1));
        page := Next(page, draft.cfg.action);
      } else {
        acpiAt := selected.value;
        draft := draft.(cfg := draft.cfg.(acpiOff := selected.value == 1));
        page := Next(page, draft.cfg.action);
      }
      Record(Pick(selected.value), from, shown, Asking(page, draft));
      return true;
    }

    /** STEP_PARTSIZE */
    method AskPartSize() returns (more: bool)
      requires Valid() && page == PartSizePage
      modifies this
      ensures old(at) <= at && if more then at > old(at) && Valid() else Stuck()
    {
      hide Choosing, Naming, Confirming, Offered, Play, Explained, IsNoticed, Entered, IsDismissed;
      ghost var from, shown := at, Asking(page, draft);
      var text, ok := InputBox(draft.cfg.partSize, PART_SIZE);
      if ok.None? {
        IsStuck(from);
        return false;
      }
      draft := draft.(cfg := draft.cfg.(partSize := text));
      page := if ok.value then Next(page, draft.cfg.action) else Previous(page, draft.cfg.action);
      Record(Enter(text, ok.value), from, shown, Asking(page, draft));
      return true;
    }

    /** STEP_HOSTNAME */
    method AskHostname() returns (more: bool)
      requires Valid() && page == HostnamePage
      modifies this
      ensures old(at) <= at && if more then at > old(at) && Valid() else Stuck()
    {
      hide Choosing, Naming, Confirming, Offered, Play, Explained, IsNoticed, Entered, IsDismissed;
      ghost var from, shown := at, Asking(page, draft);
      var text, ok := InputBox(draft.cfg.hostname, NAME_SIZE);
      if ok.None? {
        IsStuck(from);
        return false;
      }
      draft := draft.(cfg := draft.cfg.(hostname := text));
      if !ok.value {
        page := Previous(page, draft.cfg.action);
      } else {
        if draft.cfg.hostname == "" {
          draft := draft.(cfg := draft.cfg.(hostname := DEFAULT_HOSTNAME));
        }
        page := Next(page, draft.cfg.action);
      }
      Record(Enter(text, ok.value), from, shown, Asking(page, draft));
      return true;
    }

    /** STEP_USER */
    method AskUser() returns (more: bool)
      requires Valid() && page == UserPage
      modifies this
      ensures old(at) <= at && if more then at > old(at) && Valid() else Stuck()
    {
      hide Play, IsValidUsername, Explained, IsNoticed, Entered, IsDismissed;
      ghost var from := at;
      var text, ok := InputBox(draft.cfg.username, NAME_SIZE);
      if ok.None? {
        IsStuck(from);
        return false;
      }
      TakeUser(text, ok.value, from);
      if ok.value && !IsValidUsername(text) {
        more := Notice();
      } else {
        more := true;
      }
    }

    /** The message about an answer that was turned down. */
    method Notice() returns (more: bool)
      requires Shows() && IsNoticed(answers) && at == EndOf(parts)
      modifies this`at
      ensures Shows() && old(at) <= at
      ensures if more then at > old(at) && IsDismissed(keys[EndOf(parts)..at]) else Stuck()
    {
      hide Play, Explained, IsNoticed, Ended;
      var seen := MessageBox();
      return seen.Some?;
    }

    /** The username entered or abandoned since `from`. */
    method TakeUser(text: string, ok: bool, ghost from: nat)
      requires Shows() && page == UserPage && EndOf(parts) <= from <= at
      requires IsGap(Asking(page, draft), IsNoticed(answers), Enter(text, ok), keys[EndOf(parts)..from])
      requires Explains(Asking(page, draft), Enter(text, ok), keys[from..at])
      modifies this`page, this`draft, this`answers, this`parts
      ensures Shows() && at == EndOf(parts)
      ensures IsNoticed(answers) <==> ok && !IsValidUsername(text)
      ensures IsNoticed(answers) ==> page == UserPage
    {
      hide Advance, Next, Previous, Play, Explained, Explains, IsValidUsername, IsNoticed, IsGap;
      ghost var shown := Asking(page, draft);
      UserAnswer(draft, text, ok);
      draft := draft.(cfg := draft.cfg.(username := text));
      if !ok {
        page := Previous(page, draft.cfg.action);
      } else if IsValidUsername(text) {
        page := Next(page, draft.cfg.action);
      }
      Record(Enter(text, ok), from, shown, Asking(page, draft));
    }

    /** The two boxes of one round; `second` is None after Esc in either. */
    method PasswordBoxes() returns (first: string, second: Option<string>, more: bool)
      requires at <= |keys|
      modifies this`at
      ensures old(at) <= at <= |keys| && if more then at > old(at) else at == |keys|
      ensures !more ==>
        || IsQuiet(keys, old(at))
        || exists mid: nat :: EndsAt(keys, old(at), mid, true) && IsQuiet(keys, mid)
      ensures more ==> exists k :: EnteredPair(keys[old(at)..at], k, first, second)
    {
      hide Edited;
      second := None;
      var ok;
      first, ok := InputBox("", PASSWORD_SIZE);
      if ok.None? {
        return first, second, false;
      }
      if ok.value {
        var again;
        ghost var mid := at;
        again, ok := InputBox("", PASSWORD_SIZE);
        assert EndsAt(keys, old(at), mid, true);
        if ok.None? {
          return first, second, false;
        }
        if ok.value {
          second := Some(again);
        }
        PairOfBoxes(keys, old(at), mid, at, first, second);
      } else {
        assert EnteredPair(keys[old(at)..at], at - old(at) - 1, first, second);
      }
      return first, second, true;
    }

    /** One round of password_pair_box, read since `from`. */
    method TakePassword(first: string, second: Option<string>, ghost from: nat)
      requires Shows() && HasPasswords(page) && EndOf(parts) <= from <= at
      requires IsGap(Asking(page, draft), IsNoticed(answers), Pair(first, second), keys[EndOf(parts)..from])
      requires Explains(Asking(page, draft), Pair(first, second), keys[from..at])
      modifies this`page, this`draft, this`answers, this`parts
      ensures Shows() && at == EndOf(parts)
      ensures IsNoticed(answers) <==> second.Some? && !(first != "" && first == second.value)
      ensures IsNoticed(answers) ==> page == old(page)
    {
      hide Advance, Next, Previous, Play, Explained, Explains, WithPassword, IsNoticed, IsGap;
      ghost var shown := Asking(page, draft);
      PasswordAnswer(page, draft, first, second);
      PasswordKeepsMenus(page, draft, first, second);
      KeepPassword(first, second);
      if second.None? {
        page := Previous(page, draft.cfg.action);
      } else if first != "" && first == second.value {
        page := Next(page, draft.cfg.action);
      }
      Record(Pair(first, second), from, shown, Asking(page, draft));
    }

    /** password_pair_box, for the page that is shown. */
    method AskPassword() returns (more: bool)
      requires Valid() && HasPasswords(page)
      modifies this
      ensures old(at) <= at && if more then at > old(at) && Valid() else Stuck()
    {
      hide Play, Explained, EnteredPair, IsNoticed, IsDismissed;
      while true
        invariant Valid() && old(at) <= at && HasPasswords(page)
        decreases |keys| - at
      {
        ghost var from := at;
        var first, second, got := PasswordBoxes();
        if !got {
          IsStuck(from);
          return false;
        }
        TakePassword(first, second, from);
        if second.None? || (first != "" && first == second.value) {
          return true;
        }
        var seen := Notice();
        if !seen {
          return false;
        }
      }
    }

    /** What the boxes leave in the buffers of the page. */
    method KeepPassword(first: string, second: Option<string>)
      requires HasPasswords(page)
      modifies this`draft
      ensures draft == WithPassword(page, old(draft), first, second)
    {
      if page == UserPassPage {
        draft := draft.(cfg := draft.cfg.(password := first));
        if second.Some? {
          draft := draft.(userAgain := second.value);
        }
      } else {
        draft := draft.(cfg := draft.cfg.(rootPassword := first));
        if second.Some? {
          draft := draft.(rootAgain := second.value);
        }
      }
    }

    /** One answer of confirm_phrase_box, typed or abandoned since `from`. */
    method TakePhrase(typed: Option<string>, ghost from: nat)
      requires Shows() && page == ConfirmPage && EndOf(parts) <= from <= at
      requires IsGap(Asking(page, draft), IsNoticed(answers), Phrase(typed), keys[EndOf(parts)..from])
      requires Explains(Asking(page, draft), Phrase(typed), keys[from..at])
      modifies this`page, this`draft, this`answers, this`parts
      ensures Shows() && at == EndOf(parts)
      ensures IsNoticed(answers) <==> page == ConfirmPage
      ensures typed.None? ==> page != ConfirmPage
    {
      hide Advance, Play, Matches, Explained, Explains, IsNoticed, IsGap;
      ghost var shown := Asking(page, draft);
      PhraseAnswer(draft, typed);
      if typed.None? {
        page := Previous(page, draft.cfg.action);
      } else {
        draft := draft.(phrase := typed.value);
        if Matches(draft.cfg, typed.value) {
          page := Next(page, draft.cfg.action);
        }
      }
      Record(Phrase(typed), from, shown, Asking(page, draft));
    }

    /** confirm_phrase_box: on arrival the warning, then rounds of the box. */
    method AskPhrase() returns (more: bool)
      requires Valid() && page == ConfirmPage
      modifies this
      ensures old(at) <= at
      ensures if more then at > old(at) && Valid() && page != ConfirmPage else Stuck()
    {
      hide Play, Matches, Explained, Edited, IsNoticed, Ended;
      ghost var from := at;
      var ok := MessageBox();
      if ok.None? {
        IsStuck(from);
        return false;
      }
      if !ok.value {
        TakePhrase(None, from);
        return true;
      }
      while page == ConfirmPage
        invariant Shows() && old(at) < at && (page != ConfirmPage ==> Valid())
        invariant page == ConfirmPage ==>
          if IsNoticed(answers) then IsDismissed(keys[EndOf(parts)..at]) else Ended(keys[EndOf(parts)..at], true)
        decreases |keys| - at
      {
        from := at;
        var typed;
        typed, ok := InputBox("", PHRASE_SIZE);
        if ok.None? {
          IsStuck(from);
          return false;
        }
        TakePhrase(if ok.value then Some(typed) else None, from);
        if page == ConfirmPage {
          var seen := Notice();
          if !seen {
            return false;
          }
        }
      }
      return true;
    }

    /** STEP_SUMMARY: Some(true) starts the operation. */
    method AskSummary() returns (r: Option<bool>)
      requires Valid() && page == SummaryPage
      modifies this
      ensures old(at) <= at && (r.None? ==> Stuck())
      ensures r == Some(false) ==> at > old(at) && Valid()
      ensures r == Some(true) ==> Play(answers) == Accepted(draft) && Explained(keys, answers, parts)
    {
      hide Choosing, Setting, Naming, Offered, Play, Explained, IsNoticed, Ended;
      ghost var from, shown := at, Asking(page, draft);
      var ok := MessageBox();
      if ok == Some(false) {
        page := Previous(page, draft.cfg.action);
        Record(Press(false), from, shown, Asking(page, draft));
      } else if ok == Some(true) {
        Record(Press(true), from, shown, Accepted(draft));
      } else {
        IsStuck(from);
      }
      return ok;
    }

    /** One page between the first and the last. */
    method Ask() returns (more: bool)
      requires Valid() && page != Welcome && page != SummaryPage
      modifies this
      ensures old(at) <= at && if more then at > old(at) && Valid() else Stuck()
    {
      match page {
        case ActionPage => more := AskAction();
        case MediaPage => more := AskMedia();
        case DiskPage => more := AskDisk();
        case BootPage => more := AskSwitch();
        case AcpiPage => more := AskSwitch();
        case PartSizePage => more := AskPartSize();
        case HostnamePage => more := AskHostname();
        case UserPage => more := AskUser();
        case UserPassPage => more := AskPassword();
        case RootPassPage => more := AskPassword();
        case ConfirmPage => more := AskPhrase();
      }
    }

    /** installer_ui_collect_config: None while it waits for more keys. */
    method CollectConfig() returns (r: Option<bool>)
      requires Valid()
      modifies this
      ensures r.None? ==> Stuck()
      ensures r == Some(true) ==> Play(answers) == Accepted(draft) && IsGood(draft) && Explained(keys, answers, parts)
      ensures r == Some(false) ==> Play(answers) == Quit && Explained(keys, answers, parts)
    {
      hide Play, IsGood, Choosing, Setting, Naming, Confirming, Explained, IsNoticed, IsDismissed;
      while true
        invariant Valid()
        decreases |keys| - at
      {
        if page == Welcome {
          r := AskWelcome();
          if r != Some(true) {
            return;
          }
        } else if page == SummaryPage {
          r := AskSummary();
          if r != Some(false) {
            AcceptedIsGood(answers);
            return;
          }
        } else {
          var more := Ask();
          if !more {
            return None;
          }
        }
      }
    }

    /** installer_ui_main: the settings that were accepted are the ones that
        are run, and nothing is erased unless the phrase last typed says to
        erase that very disk, which is not the chosen media.  The result is
        None while the program waits for keys. */
    method Run(installer: Installer, host: Host)
      returns (rc: Option<int>, ghost outcome: Outcome, ghost media: Option<string>)
      requires Valid() && installer.trace == []
      modifies this, installer
      ensures rc.None? ==> Stuck()
      ensures rc == Some(1) ==> Play(answers) == Quit && Explained(keys, answers, parts)
      ensures rc == Some(0) ==> Play(answers) == Accepted(draft) && IsGood(draft) && Explained(keys, answers, parts)
      ensures rc.Some? ==> rc.value == 0 || rc.value == 1
      ensures rc == Some(0) ==>
        InstallerRun.IsRun(installer.trouble, Config(draft.cfg.media, draft.cfg.disk, draft.cfg.action, draft.cfg.uefi),
                           host, media, outcome, installer.trace)
      ensures rc != Some(0) ==> installer.trace == []
      ensures forall s :: s in installer.trace ==> IsMeant(draft.cfg, s)
      ensures forall s :: s in installer.trace && Destructive(s) ==>
        draft.phrase == "ERASE " + draft.cfg.disk && StaysOn(draft.cfg.disk, s)
      ensures installer.trace != [] ==> Apart(draft.cfg.disk, draft.cfg.media)
      ensures (exists s :: s in installer.trace && Destructive(s)) ==>
        WasEntered(keys, PHRASE_SIZE, "ERASE " + draft.cfg.disk)
    {
      hide Play, Explained, WasEntered, IsNoticed, IsDismissed;
      hide IsDisk, IsMedia, IsMediaOf, Belongs, IsValidUsername, Script, StaysOn, PathsFit, InstallerRun.IsRun, IsMeant;
      outcome, media := Failed, None;
      var r := CollectConfig();
      if r.None? {
        return None, outcome, media;
      }
      if !r.value {
        assert r == Some(false);
        return Some(1), outcome, media;
      }
      assert r == Some(true);
      var cfg := Config(draft.cfg.media, draft.cfg.disk, draft.cfg.action, draft.cfg.uefi);
      var o, m := installer.Run(cfg, host);
      outcome, media := o, m;
      StepsAreMeant(installer.trouble, cfg, draft.cfg, host, m, o, installer.trace);
      if installer.trace != [] { MediaIsApart(cfg, host, m.value); }
      AcceptedPhraseWasEntered(keys, answers, parts);
      return Some(0), outcome, media;
    }
  }
}
