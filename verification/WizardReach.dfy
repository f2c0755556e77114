/** Which settings a user can get the wizard to return: exactly those that can
    be typed and pass its checks. */
module WizardReach {
  import opened Text
  import opened Devices
  import opened AccountFiles
  import opened InstallerRun
  import opened Wizard
  import opened WizardKeys
  import opened WizardScreens

  /** Settings the wizard can return.  What the action does not ask may still
      hold what was typed before another action was chosen. */
  predicate IsWish(cfg: Settings) {
    && IsDisk(cfg.disk) && IsMedia(cfg.media) && cfg.disk != cfg.media && |cfg.media| <= DEVICE_PATH_MAX
    && IsTypeable(Expected(cfg), PHRASE_SIZE)
    && IsTypeable(cfg.partSize, PART_SIZE) && IsTypeable(cfg.hostname, NAME_SIZE) && IsTypeable(cfg.username, NAME_SIZE)
    && IsTypeable(cfg.password, PASSWORD_SIZE) && IsTypeable(cfg.rootPassword, PASSWORD_SIZE)
    && (cfg.action.Install? ==>
          cfg.hostname != "" && IsValidUsername(cfg.username) && cfg.password != "" && cfg.rootPassword != "")
  }

  /** Some keys make the wizard return these settings. */
  ghost predicate CanBeTyped(cfg: Settings) {
    exists keys, answers, parts ::
      Explained(keys, answers, parts) && Play(answers).Accepted? && Play(answers).draft.cfg == cfg
  }

  /** Some keys, all of them read and no message pending, lead to `s`. */
  ghost predicate Reached(s: State) {
    exists keys, answers, parts ::
      Explained(keys, answers, parts) && Play(answers) == s && EndOf(parts) == |keys| && !IsNoticed(answers)
  }

  lemma StartIsReached()
    ensures Reached(START)
  {
    var keys: seq<Key>, answers: seq<Answer>, parts: seq<Stretch> := [], [], [];
    assert Explained(keys, answers, parts) && Play(answers) == START && EndOf(parts) == |keys| && !IsNoticed(answers);
  }

  /** One answer further. */
  lemma Reach(s: State, a: Answer, gap: seq<Key>, ks: seq<Key>, t: State)
    requires Reached(s) && Advance(s, a) == t && Explains(s, a, ks) && IsGap(s, false, a, gap) && !IsRejected(s, a)
    ensures Reached(t)
  {
    hide Explained, Explains, IsGap, Play, Advance, IsRejected;
    var keys, answers, parts :|
      Explained(keys, answers, parts) && Play(answers) == s && EndOf(parts) == |keys| && !IsNoticed(answers);
    var all := keys + gap + ks;
    var x := Stretch(|keys| + |gap|, |all|);
    StretchesOf(keys, gap, ks);
    ExplainedGrows(keys, answers, parts, all, a, x);
    Leads(answers, s, a, t);
    assert (answers + [a])[..|answers|] == answers;
    assert Explained(all, answers + [a], parts + [x]) && Play(answers + [a]) == t
      && EndOf(parts + [x]) == |all| && !IsNoticed(answers + [a]);
  }

  lemma StretchesOf(keys: seq<Key>, gap: seq<Key>, ks: seq<Key>)
    ensures var all := keys + gap + ks;
            && keys <= all && all[|keys|..|keys| + |gap|] == gap && all[|keys| + |gap|..|all|] == ks
  {
  }

  // ------------------------------------------------------- keys for a purpose

  function TypeKeys(text: string): (ks: seq<Key>)
    ensures |ks| == |text| && NoEnds(ks)
  {
    seq(|text|, i requires 0 <= i < |text| => CharKey(text[i]))
  }

  function Repeat(k: Key, n: nat): (ks: seq<Key>)
    ensures |ks| == n && (!Ends(k) ==> NoEnds(ks))
  {
    seq(n, _ => k)
  }

  lemma {:induction false} EditedAppend(text: string, a: seq<Key>, b: seq<Key>, size: nat)
    ensures Edited(text, a + b, size) == Edited(Edited(text, a, size), b, size)
    decreases |b|
  {
    if b == [] {
      assert a + b == a;
    } else {
      assert (a + b)[..|a + b| - 1] == a + b[..|b| - 1];
      EditedAppend(text, a, b[..|b| - 1], size);
    }
  }

  lemma {:induction false} WipeEdits(text: string, n: nat, size: nat)
    requires n <= |text|
    ensures Edited(text, Repeat(BackspaceKey, n), size) == text[..|text| - n]
  {
    if n > 0 {
      assert Repeat(BackspaceKey, n)[..n - 1] == Repeat(BackspaceKey, n - 1);
      WipeEdits(text, n - 1, size);
    }
  }

  lemma {:induction false} TypeEdits(text: string, size: nat)
    requires IsTypeable(text, size)
    ensures Edited("", TypeKeys(text), size) == text
  {
    if text != "" {
      var front := text[..|text| - 1];
      assert TypeKeys(text)[..|text| - 1] == TypeKeys(front);
      TypeEdits(front, size);
      assert text == front + [text[|text| - 1]];
    }
  }

  /** The keys that turn what a box shows into `text`. */
  function Retype(initial: string, text: string): (ks: seq<Key>)
    ensures NoEnds(ks)
  {
    Repeat(BackspaceKey, |initial|) + TypeKeys(text)
  }

  function EndKey(ok: bool): Key { if ok then EnterKey else EscKey }

  lemma BoxReads(initial: string, text: string, size: nat, ok: bool)
    requires IsTypeable(text, size)
    ensures Entered(Retype(initial, text) + [EndKey(ok)], initial, size, text, ok)
  {
    var ks := Retype(initial, text);
    assert Strokes(ks + [EndKey(ok)]) == ks;
    EditedAppend(initial, Repeat(BackspaceKey, |initial|), TypeKeys(text), size);
    WipeEdits(initial, |initial|, size);
    assert initial[..0] == "";
    TypeEdits(text, size);
  }

  lemma {:induction false} CursorAppend(cursor: nat, a: seq<Key>, b: seq<Key>, count: nat)
    ensures Cursor(cursor, a + b, count) == Cursor(Cursor(cursor, a, count), b, count)
    decreases |b|
  {
    if b == [] {
      assert a + b == a;
    } else {
      assert (a + b)[..|a + b| - 1] == a + b[..|b| - 1];
      CursorAppend(cursor, a, b[..|b| - 1], count);
    }
  }

  lemma {:induction false} CursorMoves(cursor: nat, n: nat, count: nat)
    ensures n <= cursor ==> Cursor(cursor, Repeat(UpKey, n), count) == cursor - n
    ensures n < count ==> Cursor(0, Repeat(DownKey, n), count) == n
  {
    if n > 0 {
      CursorMoves(cursor, n - 1, count);
      assert Repeat(UpKey, n)[..n - 1] == Repeat(UpKey, n - 1);
      assert Repeat(DownKey, n)[..n - 1] == Repeat(DownKey, n - 1);
    }
  }

  function MenuKeys(start: nat, index: nat): seq<Key> {
    Repeat(UpKey, start) + Repeat(DownKey, index) + [EnterKey]
  }

  lemma MenuReads(start: nat, index: nat, count: nat)
    requires index < count
    ensures Picked(MenuKeys(start, index), start, index, count)
  {
    var ks := Repeat(UpKey, start) + Repeat(DownKey, index);
    assert Strokes(ks + [EnterKey]) == ks;
    CursorAppend(start, Repeat(UpKey, start), Repeat(DownKey, index), count);
    CursorMoves(start, start, count);
    CursorMoves(0, index, count);
  }

  lemma ButtonReads(ok: bool)
    ensures Ended([EndKey(ok)], ok)
  {
  }

  // ----------------------------------------------------------- step by step

  lemma DeviceIsNamed(d: string, media: bool)
    requires |d| <= DEVICE_PATH_MAX && if media then IsMedia(d) else IsDisk(d)
    ensures |d| >= 5 && "/dev/" + d[5..] == d && IsCandidate(d[5..], media)
  {
    assert HasPrefix(d, "/dev/");
    assert d == d[..5] + d[5..];
    var name := d[5..];
    PrefixChar(name, "sd", 0);
    PrefixChar(name, "vd", 0);
    PrefixChar(name, "xvd", 0);
    PrefixChar(name, "nvme", 0);
    PrefixChar(name, "mmcblk", 0);
    PrefixChar(name, "sr", 0);
  }

  lemma OneOffered(page: Page, draft: Draft, device: string)
    requires |device| <= DEVICE_PATH_MAX && HasScan(page)
    requires if page == MediaPage then IsMedia(device) else IsAvailable(device, draft.cfg.media)
    ensures |device| >= 5 && Offered(page, draft, [device[5..]]) == [device]
  {
    hide IsMedia, IsDisk, IsCandidate;
    DeviceIsNamed(device, page == MediaPage);
    var names := [device[5..]];
    assert names[..0] == [] && Found([], page == MediaPage) == [];
    assert Found(names, page == MediaPage) == [device];
    if page == DiskPage {
      assert [device][..0] == [] && Targets([], draft.cfg.media) == [];
    }
  }

  lemma StepWelcome(d: Draft)
    requires Reached(Asking(Welcome, d))
    ensures Reached(Asking(ActionPage, d))
  {
    hide Reached, Setting, Naming, Confirming, Offered;
    ButtonReads(true);
    Reach(Asking(Welcome, d), Press(true), [], [EndKey(true)], Asking(ActionPage, d));
  }

  lemma StepAction(d: Draft, action: Action)
    requires Reached(Asking(ActionPage, d))
    ensures Reached(Asking(MediaPage, d.(cfg := d.cfg.(action := action))))
  {
    hide Reached, Setting, Naming, Confirming, Offered, Picked;
    var start := Index(d.cfg.action);
    MenuReads(start, Index(action), |ACTIONS|);
    Reach(Asking(ActionPage, d), Pick(Index(action)), [], MenuKeys(start, Index(action)),
          Asking(MediaPage, d.(cfg := d.cfg.(action := action))));
  }

  lemma StepMedia(d: Draft, media: string)
    requires Reached(Asking(MediaPage, d)) && IsMedia(media) && |media| <= DEVICE_PATH_MAX
    ensures Reached(Asking(DiskPage, PickMedia(d, 0, media)))
  {
    hide Reached, Advance, Offered, Picked, IsMedia;
    OneOffered(MediaPage, d, media);
    var start := Clamped(d.mediaAt, 1);
    MenuReads(start, 0, 1);
    MediaAnswer(d, [media[5..]], 0);
    Reach(Asking(MediaPage, d), Scan([media[5..]], 0), [], MenuKeys(start, 0),
          Asking(DiskPage, PickMedia(d, 0, media)));
  }

  lemma StepDisk(d: Draft, disk: string)
    requires Reached(Asking(DiskPage, d)) && IsDisk(disk) && disk != d.cfg.media && |disk| <= DEVICE_PATH_MAX
    ensures Reached(Asking(BootPage, d.(diskAt := 0, cfg := d.cfg.(disk := disk))))
  {
    hide Reached, Advance, Offered, Picked, IsDisk;
    OneOffered(DiskPage, d, disk);
    var start := Clamped(d.diskAt, 1);
    MenuReads(start, 0, 1);
    DiskAnswer(d, [disk[5..]], 0);
    Reach(Asking(DiskPage, d), Scan([disk[5..]], 0), [], MenuKeys(start, 0),
          Asking(BootPage, d.(diskAt := 0, cfg := d.cfg.(disk := disk))));
  }

  lemma StepBoot(d: Draft, flag: bool)
    requires Reached(Asking(BootPage, d))
    ensures Reached(Asking(Next(BootPage, d.cfg.action), d.(cfg := d.cfg.(uefi := flag))))
  {
    hide Reached, Choosing, Naming, Confirming, Picked;
    var start, index := if d.cfg.uefi then 1 else 0, if flag then 1 else 0;
    MenuReads(start, index, 2);
    Reach(Asking(BootPage, d), Pick(index), [], MenuKeys(start, index),
          Asking(Next(BootPage, d.cfg.action), d.(cfg := d.cfg.(uefi := flag))));
  }

  lemma StepAcpi(d: Draft, flag: bool)
    requires Reached(Asking(AcpiPage, d))
    ensures Reached(Asking(PartSizePage, d.(cfg := d.cfg.(acpiOff := flag))))
  {
    hide Reached, Choosing, Naming, Confirming, Picked;
    var start, index := if d.cfg.acpiOff then 1 else 0, if flag then 1 else 0;
    MenuReads(start, index, 2);
    Reach(Asking(AcpiPage, d), Pick(index), [], MenuKeys(start, index),
          Asking(PartSizePage, d.(cfg := d.cfg.(acpiOff := flag))));
  }

  /** Esc on a page with a menu of settings. */
  lemma StepBack(page: Page, d: Draft)
    requires Reached(Asking(page, d)) && (page == BootPage || page == AcpiPage)
    ensures Reached(Asking(Previous(page, d.cfg.action), d))
  {
    hide Reached, Choosing, Naming, Confirming;
    ButtonReads(false);
    Reach(Asking(page, d), Pick(-1), [], [EndKey(false)], Asking(Previous(page, d.cfg.action), d));
  }

  /** A scan that finds nothing leads back, too. */
  lemma StepNoDevice(page: Page, d: Draft)
    requires Reached(Asking(page, d)) && HasScan(page)
    ensures Reached(Asking(Previous(page, d.cfg.action), d))
  {
    hide Reached, Setting, Naming, Confirming;
    ButtonReads(false);
    assert Offered(page, d, []) == [];
    Reach(Asking(page, d), Scan([], -1), [], [EndKey(false)], Asking(Previous(page, d.cfg.action), d));
  }

  lemma StepPartSize(d: Draft, text: string, ok: bool)
    requires Reached(Asking(PartSizePage, d)) && IsTypeable(text, PART_SIZE)
    ensures var e := d.(cfg := d.cfg.(partSize := text));
            Reached(if ok then Forward(PartSizePage, e) else Back(PartSizePage, e))
  {
    hide Reached, Choosing, Naming, Confirming, Entered, IsTypeable;
    BoxReads(d.cfg.partSize, text, PART_SIZE, ok);
    var e := d.(cfg := d.cfg.(partSize := text));
    Reach(Asking(PartSizePage, d), Enter(text, ok), [], Retype(d.cfg.partSize, text) + [EndKey(ok)],
          if ok then Forward(PartSizePage, e) else Back(PartSizePage, e));
  }

  lemma StepHostname(d: Draft, text: string, ok: bool)
    requires Reached(Asking(HostnamePage, d)) && IsTypeable(text, NAME_SIZE) && (ok ==> text != "")
    ensures Reached(Asking(if ok then UserPage else PartSizePage, d.(cfg := d.cfg.(hostname := text))))
  {
    hide Reached, Choosing, Naming, Confirming, Entered, IsTypeable;
    BoxReads(d.cfg.hostname, text, NAME_SIZE, ok);
    Reach(Asking(HostnamePage, d), Enter(text, ok), [], Retype(d.cfg.hostname, text) + [EndKey(ok)],
          Asking(if ok then UserPage else PartSizePage, d.(cfg := d.cfg.(hostname := text))));
  }

  lemma StepUser(d: Draft, text: string, ok: bool)
    requires Reached(Asking(UserPage, d)) && IsTypeable(text, NAME_SIZE) && (ok ==> IsValidUsername(text))
    ensures Reached(Asking(if ok then UserPassPage else HostnamePage, d.(cfg := d.cfg.(username := text))))
  {
    hide Reached, Advance, Entered, IsTypeable, IsValidUsername;
    BoxReads(d.cfg.username, text, NAME_SIZE, ok);
    UserAnswer(d, text, ok);
    Reach(Asking(UserPage, d), Enter(text, ok), [], Retype(d.cfg.username, text) + [EndKey(ok)],
          Asking(if ok then UserPassPage else HostnamePage, d.(cfg := d.cfg.(username := text))));
  }

  /** A password typed and repeated, or typed and abandoned. */
  lemma StepPassword(page: Page, d: Draft, text: string, ok: bool)
    requires Reached(Asking(page, d)) && HasPasswords(page) && IsTypeable(text, PASSWORD_SIZE) && (ok ==> text != "")
    ensures var e := WithPassword(page, d, text, if ok then Some(text) else None);
            Reached(if ok then Forward(page, e) else Back(page, e))
  {
    hide Reached, Advance, Next, Previous, IsTypeable, WithPassword;
    var second := if ok then Some(text) else None;
    PasswordAnswer(page, d, text, second);
    var e := WithPassword(page, d, text, second);
    var t := if ok then Forward(page, e) else Back(page, e);
    PairReads(text, ok, second);
    Reach(Asking(page, d), Pair(text, second), [], PairKeys(text, ok), t);
  }

  function PairKeys(text: string, ok: bool): seq<Key> {
    var box := Retype("", text) + [EndKey(ok)];
    if ok then box + box else box
  }

  lemma PairReads(text: string, ok: bool, second: Option<string>)
    requires IsTypeable(text, PASSWORD_SIZE) && second == if ok then Some(text) else None
    ensures exists k :: EnteredPair(PairKeys(text, ok), k, text, second)
  {
    hide Entered, Edited, IsTypeable;
    BoxReads("", text, PASSWORD_SIZE, ok);
    var box := Retype("", text) + [EndKey(ok)];
    if ok {
      EnteredEnds(box, "", PASSWORD_SIZE, text, true);
      var ks := PairKeys(text, ok);
      assert ks[0..|box|] == box && ks[|box|..|ks|] == box && ks[0..|ks|] == ks;
      PairOfBoxes(ks, 0, |box|, |ks|, text, second);
    } else {
      assert EnteredPair(PairKeys(text, ok), |box| - 1, text, second);
    }
  }

  lemma EnteredEnds(ks: seq<Key>, initial: string, size: nat, text: string, ok: bool)
    requires Entered(ks, initial, size, text, ok)
    ensures Ended(ks, ok)
  {
  }

  lemma StepPhrase(d: Draft)
    requires Reached(Asking(ConfirmPage, d)) && d.cfg.disk != "" && IsTypeable(Expected(d.cfg), PHRASE_SIZE)
    ensures Reached(Accepted(d.(phrase := Expected(d.cfg))))
  {
    hide Reached, Choosing, Setting, Naming, Entered, Ended;
    var text, e := Expected(d.cfg), d.(phrase := Expected(d.cfg));
    BoxReads("", text, PHRASE_SIZE, true);
    ButtonReads(true);
    assert Matches(d.cfg, text);
    Reach(Asking(ConfirmPage, d), Phrase(Some(text)), [EndKey(true)], Retype("", text) + [EndKey(true)],
          Asking(SummaryPage, e));
    Reach(Asking(SummaryPage, e), Press(true), [], [EndKey(true)], Accepted(e));
  }

  // -------------------------------------------------------------- whole ways

  /** From the choice of an action to the end.  Unless the action asks for
      them, the texts must be there already. */
  lemma FromAction(d: Draft, cfg: Settings) returns (e: Draft)
    requires Reached(Asking(ActionPage, d)) && IsWish(cfg) && d.cfg.disk != cfg.media
    requires !cfg.action.Install? ==>
      d.cfg == cfg.(action := d.cfg.action, uefi := d.cfg.uefi, media := d.cfg.media, disk := d.cfg.disk)
    ensures Reached(Accepted(e)) && e.cfg == cfg
  {
    hide Reached, IsTypeable, IsDisk, IsMedia, IsValidUsername, WithPassword;
    DiskFits(cfg);
    var d1 := d.(cfg := d.cfg.(action := cfg.action));
    StepAction(d, cfg.action);
    StepMedia(d1, cfg.media);
    var d2 := PickMedia(d1, 0, cfg.media);
    StepDisk(d2, cfg.disk);
    var d3 := d2.(diskAt := 0, cfg := d2.cfg.(disk := cfg.disk));
    StepBoot(d3, cfg.uefi);
    var d4 := d3.(cfg := d3.cfg.(uefi := cfg.uefi));
    match cfg.action {
      case Update =>
        e := FromConfirm(d4, cfg);
      case FormatOnly =>
        StepPartSize(d4, cfg.partSize, true);
        assert d4.cfg.(partSize := cfg.partSize) == cfg;
        e := FromConfirm(d4.(cfg := d4.cfg.(partSize := cfg.partSize)), cfg);
      case Install =>
        StepAcpi(d4, cfg.acpiOff);
        var d5 := d4.(cfg := d4.cfg.(acpiOff := cfg.acpiOff));
        StepPartSize(d5, cfg.partSize, true);
        var d6 := d5.(cfg := d5.cfg.(partSize := cfg.partSize));
        StepHostname(d6, cfg.hostname, true);
        e := FromUser(d6.(cfg := d6.cfg.(hostname := cfg.hostname)), cfg);
    }
  }

  lemma DiskFits(cfg: Settings)
    requires IsWish(cfg)
    ensures cfg.disk != "" && |cfg.disk| <= DEVICE_PATH_MAX
  {
    DiskIsNamed();
    assert |Expected(cfg)| >= 6 + |cfg.disk|;
  }

  lemma FromConfirm(d: Draft, cfg: Settings) returns (e: Draft)
    requires Reached(Asking(ConfirmPage, d)) && IsWish(cfg) && d.cfg == cfg
    ensures Reached(Accepted(e)) && e.cfg == cfg
  {
    DiskFits(cfg);
    hide Reached;
    StepPhrase(d);
    e := d.(phrase := Expected(cfg));
  }

  lemma FromUser(d: Draft, cfg: Settings) returns (e: Draft)
    requires Reached(Asking(UserPage, d)) && IsWish(cfg) && cfg.action.Install?
    requires d.cfg == cfg.(username := d.cfg.username, password := d.cfg.password, rootPassword := d.cfg.rootPassword)
    ensures Reached(Accepted(e)) && e.cfg == cfg
  {
    hide Reached, IsTypeable, IsDisk, IsMedia, IsValidUsername;
    StepUser(d, cfg.username, true);
    var d1 := d.(cfg := d.cfg.(username := cfg.username));
    StepPassword(UserPassPage, d1, cfg.password, true);
    var d2 := WithPassword(UserPassPage, d1, cfg.password, Some(cfg.password));
    StepPassword(RootPassPage, d2, cfg.rootPassword, true);
    var d3 := WithPassword(RootPassPage, d2, cfg.rootPassword, Some(cfg.rootPassword));
    e := FromConfirm(d3, cfg);
  }

  /** Through the pages of an install up to root's password and back to the
      choice of an action, leaving any texts behind. */
  lemma Detour(cfg: Settings) returns (d: Draft)
    requires IsWish(cfg)
    ensures Reached(Asking(ActionPage, d)) && d.cfg == cfg.(action := Install, uefi := false)
  {
    hide Reached, IsTypeable, IsDisk, IsMedia, IsValidUsername, IsWish;
    var d0 := START.draft;
    StartIsReached();
    StepWelcome(d0);
    var d1 := Outward(d0, cfg);
    d := Homeward(d1, cfg);
  }

  lemma Outward(d0: Draft, cfg: Settings) returns (d: Draft)
    requires Reached(Asking(ActionPage, d0)) && IsWish(cfg) && d0 == START.draft
    ensures Reached(Asking(RootPassPage, d))
    ensures var c := d.cfg;
            c.media == cfg.media && c.disk == cfg.disk && c.action.Install? && !c.uefi && c.acpiOff == cfg.acpiOff
  {
    NameExample();
    hide Reached, IsTypeable, IsDisk, IsMedia, IsValidUsername;
    DiskFits(cfg);
    StepAction(d0, Install);
    var d1 := d0.(cfg := d0.cfg.(action := Install));
    StepMedia(d1, cfg.media);
    var d2 := PickMedia(d1, 0, cfg.media);
    StepDisk(d2, cfg.disk);
    var d3 := d2.(diskAt := 0, cfg := d2.cfg.(disk := cfg.disk));
    StepBoot(d3, false);
    var d4 := d3.(cfg := d3.cfg.(uefi := false));
    StepAcpi(d4, cfg.acpiOff);
    var d5 := d4.(cfg := d4.cfg.(acpiOff := cfg.acpiOff));
    StepPartSize(d5, "a", true);
    var d6 := d5.(cfg := d5.cfg.(partSize := "a"));
    StepHostname(d6, "a", true);
    var d7 := d6.(cfg := d6.cfg.(hostname := "a"));
    StepUser(d7, "a", true);
    var d8 := d7.(cfg := d7.cfg.(username := "a"));
    StepPassword(UserPassPage, d8, "a", true);
    d := WithPassword(UserPassPage, d8, "a", Some("a"));
  }

  lemma NameExample()
    ensures IsValidUsername("a") && IsTypeable("a", NAME_SIZE) && IsTypeable("a", PART_SIZE) &&
      IsTypeable("a", PASSWORD_SIZE)
  {
  }

  lemma Homeward(d0: Draft, cfg: Settings) returns (d: Draft)
    requires Reached(Asking(RootPassPage, d0)) && IsWish(cfg)
    requires var c := d0.cfg;
             c.media == cfg.media && c.disk == cfg.disk && c.action.Install? && !c.uefi && c.acpiOff == cfg.acpiOff
    ensures Reached(Asking(ActionPage, d)) && d.cfg == cfg.(action := Install, uefi := false)
  {
    hide Reached, IsTypeable, IsDisk, IsMedia, IsValidUsername;
    StepPassword(RootPassPage, d0, cfg.rootPassword, false);
    var d1 := WithPassword(RootPassPage, d0, cfg.rootPassword, None);
    StepPassword(UserPassPage, d1, cfg.password, false);
    var d2 := WithPassword(UserPassPage, d1, cfg.password, None);
    StepUser(d2, cfg.username, false);
    var d3 := d2.(cfg := d2.cfg.(username := cfg.username));
    StepHostname(d3, cfg.hostname, false);
    var d4 := d3.(cfg := d3.cfg.(hostname := cfg.hostname));
    StepPartSize(d4, cfg.partSize, false);
    d := d4.(cfg := d4.cfg.(partSize := cfg.partSize));
    StepBack(AcpiPage, d);
    StepBack(BootPage, d);
    StepNoDevice(DiskPage, d);
    StepNoDevice(MediaPage, d);
  }

  lemma WishIsReached(cfg: Settings) returns (e: Draft)
    requires IsWish(cfg)
    ensures Reached(Accepted(e)) && e.cfg == cfg
  {
    DiskFits(cfg);
    hide Reached, IsTypeable, IsDisk, IsMedia, IsValidUsername;
    if cfg.action.Install? {
      MediaIsNamed(cfg);
      StartIsReached();
      StepWelcome(START.draft);
      e := FromAction(START.draft, cfg);
    } else {
      var d := Detour(cfg);
      e := FromAction(d, cfg);
    }
  }

  lemma MediaIsNamed(cfg: Settings)
    requires IsWish(cfg)
    ensures cfg.media != ""
  {
  }

  /** Every wish can be typed. */
  lemma WishCanBeTyped(cfg: Settings)
    requires IsWish(cfg)
    ensures CanBeTyped(cfg)
  {
    hide Explained, Play, IsWish, IsNoticed;
    var e := WishIsReached(cfg);
    var keys, answers, parts :| Explained(keys, answers, parts) && Play(answers) == Accepted(e);
    assert Explained(keys, answers, parts) && Play(answers).Accepted? && Play(answers).draft.cfg == cfg;
  }

  /** The wizard can be made to return settings exactly if they are a wish. */
  lemma SettingsAreWishes(cfg: Settings)
    ensures CanBeTyped(cfg) <==> IsWish(cfg)
  {
    hide Explained, Play, IsTypeable, IsDisk, IsMedia, IsValidUsername;
    if CanBeTyped(cfg) {
      var keys, answers, parts :|
        Explained(keys, answers, parts) && Play(answers).Accepted? && Play(answers).draft.cfg == cfg;
      AcceptedIsGood(answers);
      ExplainedIsTypeable(keys, answers, parts);
    }
    if IsWish(cfg) { WishCanBeTyped(cfg); }
  }
}
