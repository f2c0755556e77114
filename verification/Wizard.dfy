/** The wizard of the installer: a page per question, answered in order, with
    Esc leading back.  Its meaning is a machine over answers; the program reads
    key strokes and follows that machine. */
module Wizard {
  import opened Text
  import opened Devices
  import opened AccountFiles
  import opened InstallerRun

  datatype Settings = Settings(
    media: string, disk: string, action: Action, uefi: bool, acpiOff: bool, partSize: string,
    hostname: string, username: string, password: string, rootPassword: string)

  /** The settings so far, what was last typed into the confirming boxes, and
      where the menus of devices were left. */
  datatype Draft = Draft(
    cfg: Settings, phrase: string, userAgain: string, rootAgain: string, mediaAt: nat, diskAt: nat)

  datatype Page =
    | Welcome | ActionPage | MediaPage | DiskPage | BootPage | AcpiPage | PartSizePage
    | HostnamePage | UserPage | UserPassPage | RootPassPage | ConfirmPage | SummaryPage

  datatype State = Asking(page: Page, draft: Draft) | Accepted(draft: Draft) | Quit

  /** What the user does on a page: a button, a menu entry (-1 for Esc), a scan
      of the block devices and a menu entry, a text confirmed or abandoned with Esc, a password and
      its repetition (None for Esc), a phrase (None for Esc). */
  datatype Answer =
    | Press(ok: bool)
    | Pick(index: int)
    | Scan(names: seq<string>, index: int)
    | Enter(text: string, ok: bool)
    | Pair(first: string, second: Option<string>)
    | Phrase(typed: Option<string>)

  const NAME_SIZE := 64
  const DEVICE_NAME_MAX := 48
  const DEVICE_PATH_MAX := 53
  const DEVICES_MAX := 32
  const PHRASE_SIZE := 96
  const DEFAULT_HOSTNAME := "adavalinux"
  const ACTIONS := [Install, FormatOnly, Update]

  const BLANK := Settings("", "", Install, false, false, "", DEFAULT_HOSTNAME, "", "", "")

  const START := Asking(Welcome, Draft(BLANK, "", "", "", 0, 0))

  // ----------------------------------------------------------- the pages

  /** next_step_for_config */
  function Next(page: Page, action: Action): Page {
    match page
    case Welcome => ActionPage
    case ActionPage => MediaPage
    case MediaPage => DiskPage
    case DiskPage => BootPage
    case BootPage => if action.Update? then ConfirmPage else if action.FormatOnly? then PartSizePage else AcpiPage
    case AcpiPage => PartSizePage
    case PartSizePage => if action.FormatOnly? then ConfirmPage else HostnamePage
    case HostnamePage => UserPage
    case UserPage => UserPassPage
    case UserPassPage => RootPassPage
    case RootPassPage => ConfirmPage
    case ConfirmPage => SummaryPage
    case SummaryPage => SummaryPage
  }

  /** previous_step_for_config */
  function Previous(page: Page, action: Action): Page {
    match page
    case Welcome => Welcome
    case ActionPage => Welcome
    case MediaPage => ActionPage
    case DiskPage => MediaPage
    case BootPage => DiskPage
    case AcpiPage => BootPage
    case PartSizePage => if action.FormatOnly? then BootPage else AcpiPage
    case HostnamePage => PartSizePage
    case UserPage => HostnamePage
    case UserPassPage => UserPage
    case RootPassPage => UserPassPage
    case ConfirmPage => if action.Update? then BootPage else if action.FormatOnly? then PartSizePage else RootPassPage
    case SummaryPage => ConfirmPage
  }

  function Rank(page: Page): nat {
    match page
    case Welcome => 0
    case ActionPage => 1
    case MediaPage => 2
    case DiskPage => 3
    case BootPage => 4
    case AcpiPage => 5
    case PartSizePage => 6
    case HostnamePage => 7
    case UserPage => 8
    case UserPassPage => 9
    case RootPassPage => 10
    case ConfirmPage => 11
    case SummaryPage => 12
  }

  /** The pages an action asks for. */
  predicate OnPath(page: Page, action: Action) {
    match page
    case AcpiPage => action.Install?
    case PartSizePage => !action.Update?
    case HostnamePage => action.Install?
    case UserPage => action.Install?
    case UserPassPage => action.Install?
    case RootPassPage => action.Install?
    case _ => true
  }

  /** Along the path of an action, Esc undoes a step forward and the other way
      round. */
  lemma StepsInvert(page: Page, action: Action)
    requires OnPath(page, action)
    ensures OnPath(Next(page, action), action) && OnPath(Previous(page, action), action)
    ensures !page.SummaryPage? ==> Previous(Next(page, action), action) == page && Rank(page) < Rank(Next(page, action))
    ensures !page.Welcome? ==> Next(Previous(page, action), action) == page && Rank(Previous(page, action)) < Rank(page)
  {
  }

  // --------------------------------------------------------- the machine

  /** A block device that a scan for media, or for disks, takes up. */
  predicate IsCandidate(name: string, media: bool) {
    && (name == "" || name[0] != '.') && |name| <= DEVICE_NAME_MAX
    && if media then IsMedia("/dev/" + name) else IsDisk("/dev/" + name)
  }

  /** scan_block_devices, over the names that are block devices. */
  function Found(names: seq<string>, media: bool): (found: seq<string>)
    ensures |found| <= DEVICES_MAX
  {
    if names == [] then []
    else
      var rest, name := Found(names[..|names| - 1], media), names[|names| - 1];
      if |rest| < DEVICES_MAX && IsCandidate(name, media) then rest + ["/dev/" + name] else rest
  }

  /** The disks among those found that the target may be chosen from. */
  function Targets(found: seq<string>, media: string): (targets: seq<string>)
    ensures |targets| <= |found|
  {
    if found == [] then []
    else
      var rest, d := Targets(found[..|found| - 1], media), found[|found| - 1];
      if IsAvailable(d, media) then rest + [d] else rest
  }

  /** Every found device is a named candidate, and every one of them is found
      as long as the list has room. */
  lemma {:induction false} FoundMembers(names: seq<string>, media: bool, d: string)
    ensures d in Found(names, media) ==> exists name :: name in names && IsCandidate(name, media) && d == "/dev/" + name
    ensures d in Found(names, media) ==> |d| <= DEVICE_PATH_MAX && if media then IsMedia(d) else IsDisk(d)
    ensures |Found(names, media)| < DEVICES_MAX ==>
              forall name :: name in names && IsCandidate(name, media) ==> "/dev/" + name in Found(names, media)
  {
    hide IsMedia, IsDisk;
    if names != [] {
      var front := names[..|names| - 1];
      FoundMembers(front, media, d);
      assert names == front + [names[|names| - 1]];
    }
  }

  /** Exactly the available disks are offered. */
  lemma {:induction false} TargetsMembers(found: seq<string>, media: string, d: string)
    ensures d in Targets(found, media) <==> d in found && IsAvailable(d, media)
  {
    hide IsAvailable;
    if found != [] {
      var front := found[..|found| - 1];
      TargetsMembers(front, media, d);
      assert found == front + [found[|found| - 1]];
    }
  }

  /** What the menu of a device page offers. */
  function Offered(page: Page, draft: Draft, names: seq<string>): seq<string> {
    if page == MediaPage then Found(names, true) else Targets(Found(names, false), draft.cfg.media)
  }

  lemma OfferedFits(page: Page, draft: Draft, names: seq<string>, d: string)
    requires d in Offered(page, draft, names)
    ensures |d| <= DEVICE_PATH_MAX
    ensures if page == MediaPage then IsMedia(d) else IsAvailable(d, draft.cfg.media)
  {
    hide IsMedia, IsDisk;
    if page == MediaPage {
      FoundMembers(names, true, d);
    } else {
      TargetsMembers(Found(names, false), draft.cfg.media, d);
      FoundMembers(names, false, d);
    }
  }

  /** A remembered position, or the top of a shorter menu. */
  function Clamped(at: nat, count: nat): nat { if at < count then at else 0 }

  /** The phrase that confirms the action on the disk. */
  function Expected(cfg: Settings): string {
    (if cfg.action.Update? then "UPDATE " else "ERASE ") + cfg.disk
  }

  /** The test of confirm_phrase_box. */
  predicate Matches(cfg: Settings, typed: string) {
    if cfg.action.Update? then typed == Fit(Expected(cfg), PHRASE_SIZE)
    else cfg.disk != "" && |Expected(cfg)| < PHRASE_SIZE && typed == Expected(cfg)
  }

  /** A name that leaves room for the phrase has to be typed in full; of a
      longer one an update takes the beginning, and nothing erases it. */
  lemma PhraseIs(cfg: Settings, typed: string)
    ensures Matches(cfg, typed) <==>
            if cfg.action.Update? then
              typed == "UPDATE " + if |cfg.disk| <= 88 then cfg.disk else cfg.disk[..88]
            else 0 < |cfg.disk| <= 89 && typed == "ERASE " + cfg.disk
  {
    if cfg.action.Update? && |cfg.disk| > 88 {
      assert ("UPDATE " + cfg.disk)[..95] == "UPDATE " + cfg.disk[..88];
    }
  }

  function Forward(page: Page, draft: Draft): State { Asking(Next(page, draft.cfg.action), draft) }

  function Back(page: Page, draft: Draft): State { Asking(Previous(page, draft.cfg.action), draft) }

  /** The media chosen; a target that is now the media is dropped. */
  function PickMedia(d: Draft, at: nat, device: string): Draft {
    var e := d.(mediaAt := at, cfg := d.cfg.(media := device));
    if d.cfg.disk == device then e.(diskAt := 0, cfg := e.cfg.(disk := "")) else e
  }

  /** The pages up to the target disk. */
  function Choosing(page: Page, d: Draft, a: Answer): State {
    var stay, cfg := Asking(page, d), d.cfg;
    match page
    case Welcome => if !a.Press? then stay else if a.ok then Forward(page, d) else Quit
    case ActionPage =>
      if !a.Pick? || a.index >= |ACTIONS| then stay
      else if a.index < 0 then Back(page, d)
      else Forward(page, d.(cfg := cfg.(action := ACTIONS[a.index])))
    case MediaPage =>
      if !a.Scan? then stay
      else
        var offered := Offered(page, d, a.names);
        if offered == [] then Back(page, d)
        else if a.index < 0 then Back(page, d.(mediaAt := Clamped(d.mediaAt, |offered|)))
        else if a.index >= |offered| then stay
        else Forward(page, PickMedia(d, a.index, offered[a.index]))
    case DiskPage =>
      if !a.Scan? then stay
      else
        var offered := Offered(page, d, a.names);
        if offered == [] then Back(page, d)
        else if a.index < 0 then Back(page, d.(diskAt := Clamped(d.diskAt, |offered|)))
        else if a.index >= |offered| then stay
        else Forward(page, d.(diskAt := a.index, cfg := cfg.(disk := offered[a.index])))
    case _ => stay
  }

  /** The pages from the boot mode to the hostname. */
  function Setting(page: Page, d: Draft, a: Answer): State {
    var stay, cfg := Asking(page, d), d.cfg;
    match page
    case BootPage =>
      if !a.Pick? then stay
      else if a.index < 0 then Back(page, d)
      else Forward(page, d.(cfg := cfg.(uefi := a.index == 1)))
    case AcpiPage =>
      if !a.Pick? then stay
      else if a.index < 0 then Back(page, d)
      else Forward(page, d.(cfg := cfg.(acpiOff := a.index == 1)))
    case PartSizePage =>
      if !a.Enter? then stay
      else
        var e := d.(cfg := cfg.(partSize := a.text));
        if a.ok then Forward(page, e) else Back(page, e)
    case HostnamePage =>
      if !a.Enter? then stay
      else if a.ok then Forward(page, d.(cfg := cfg.(hostname := if a.text == "" then DEFAULT_HOSTNAME else a.text)))
      else Back(page, d.(cfg := cfg.(hostname := a.text)))
    case _ => stay
  }

  /** The pages about the accounts. */
  function Naming(page: Page, d: Draft, a: Answer): State {
    var stay, cfg := Asking(page, d), d.cfg;
    match page
    case UserPage =>
      if !a.Enter? then stay
      else
        var e := d.(cfg := cfg.(username := a.text));
        if !a.ok then Back(page, e) else if IsValidUsername(a.text) then Forward(page, e) else Asking(page, e)
    case UserPassPage =>
      if !a.Pair? then stay
      else
        var e := d.(cfg := cfg.(password := a.first),
                    userAgain := if a.second.Some? then a.second.value else d.userAgain);
        if a.second.None? then Back(page, e)
        else if a.first != "" && a.first == a.second.value then Forward(page, e) else Asking(page, e)
    case RootPassPage =>
      if !a.Pair? then stay
      else
        var e := d.(cfg := cfg.(rootPassword := a.first),
                    rootAgain := if a.second.Some? then a.second.value else d.rootAgain);
        if a.second.None? then Back(page, e)
        else if a.first != "" && a.first == a.second.value then Forward(page, e) else Asking(page, e)
    case _ => stay
  }

  /** The last two pages. */
  function Confirming(page: Page, d: Draft, a: Answer): State {
    var stay := Asking(page, d);
    match page
    case ConfirmPage =>
      if !a.Phrase? then stay
      else if a.typed.None? then Back(page, d)
      else
        var e := d.(phrase := a.typed.value);
        if Matches(d.cfg, a.typed.value) then Forward(page, e) else Asking(page, e)
    case SummaryPage => if !a.Press? then stay else if a.ok then Accepted(d) else Back(page, d)
    case _ => stay
  }

  /** One answer on one page; an answer that does not fit the page is ignored. */
  function Advance(s: State, a: Answer): State {
    if !s.Asking? then s
    else if Rank(s.page) <= Rank(DiskPage) then Choosing(s.page, s.draft, a)
    else if Rank(s.page) <= Rank(HostnamePage) then Setting(s.page, s.draft, a)
    else if Rank(s.page) <= Rank(RootPassPage) then Naming(s.page, s.draft, a)
    else Confirming(s.page, s.draft, a)
  }

  /** The state after a sequence of answers. */
  function Play(answers: seq<Answer>): State {
    if answers == [] then START
    else Advance(Play(answers[..|answers| - 1]), answers[|answers| - 1])
  }

  // ---------------------------------------------------------- what holds

  /** What an accepted draft guarantees. */
  predicate IsGood(d: Draft) {
    var cfg := d.cfg;
    && IsDisk(cfg.disk) && IsMedia(cfg.media) && cfg.disk != cfg.media
    && |cfg.disk| <= DEVICE_PATH_MAX && |cfg.media| <= DEVICE_PATH_MAX
    && d.phrase == Expected(cfg)
    && (cfg.action.Install? ==>
          && cfg.hostname != "" && IsValidUsername(cfg.username)
          && cfg.password != "" && d.userAgain == cfg.password
          && cfg.rootPassword != "" && d.rootAgain == cfg.rootPassword)
  }

  /** Everything asked before `page` is in order. */
  predicate IsSettled(page: Page, d: Draft) {
    var cfg, rank := d.cfg, Rank(page);
    && |cfg.disk| <= DEVICE_PATH_MAX && |cfg.media| <= DEVICE_PATH_MAX && OnPath(page, cfg.action)
    && (rank > Rank(MediaPage) ==> IsMedia(cfg.media))
    && (rank > Rank(DiskPage) ==> IsDisk(cfg.disk) && cfg.disk != cfg.media)
    && (cfg.action.Install? ==>
          && (rank > Rank(HostnamePage) ==> cfg.hostname != "")
          && (rank > Rank(UserPage) ==> IsValidUsername(cfg.username))
          && (rank > Rank(UserPassPage) ==> cfg.password != "" && d.userAgain == cfg.password)
          && (rank > Rank(RootPassPage) ==> cfg.rootPassword != "" && d.rootAgain == cfg.rootPassword))
    && (rank > Rank(ConfirmPage) ==> d.phrase == Expected(cfg))
  }

  predicate IsSound(s: State) {
    match s
    case Asking(page, d) => IsSettled(page, d)
    case Accepted(d) => IsGood(d)
    case Quit => true
  }

  lemma AdvanceIsSound(s: State, a: Answer)
    requires IsSound(s)
    ensures IsSound(Advance(s, a))
  {
    hide IsSettled, IsGood, Choosing, Setting, Naming, Confirming;
    if s.Asking? {
      if Rank(s.page) <= Rank(DiskPage) {
        ChoosingIsSound(s.page, s.draft, a);
      } else if Rank(s.page) <= Rank(HostnamePage) {
        SettingIsSound(s.page, s.draft, a);
      } else if Rank(s.page) <= Rank(RootPassPage) {
        NamingIsSound(s.page, s.draft, a);
      } else {
        ConfirmingIsSound(s.page, s.draft, a);
      }
    }
  }

  lemma ChoosingIsSound(page: Page, d: Draft, a: Answer)
    requires IsSettled(page, d) && Rank(page) <= Rank(DiskPage)
    ensures IsSound(Choosing(page, d, a))
  {
    hide IsDisk, IsMedia, IsValidUsername, Matches, Expected, Offered;
    if (page == MediaPage || page == DiskPage) && a.Scan? {
      ChoosingDevicesIsSound(page, d, a);
    }
  }

  lemma ChoosingDevicesIsSound(page: Page, d: Draft, a: Answer)
    requires IsSettled(page, d) && (page == MediaPage || page == DiskPage) && a.Scan?
    ensures IsSound(Choosing(page, d, a))
  {
    DiskIsNamed();
    hide IsDisk, IsMedia, IsValidUsername, Matches, Expected, Offered;
    var offered := Offered(page, d, a.names);
    if 0 <= a.index < |offered| { OfferedFits(page, d, a.names, offered[a.index]); }
  }

  lemma SettingIsSound(page: Page, d: Draft, a: Answer)
    requires IsSettled(page, d) && Rank(DiskPage) < Rank(page) <= Rank(HostnamePage)
    ensures IsSound(Setting(page, d, a))
  {
    hide IsDisk, IsMedia, IsValidUsername, Matches, Expected;
  }

  lemma NamingIsSound(page: Page, d: Draft, a: Answer)
    requires IsSettled(page, d) && Rank(HostnamePage) < Rank(page) <= Rank(RootPassPage)
    ensures IsSound(Naming(page, d, a))
  {
    hide IsDisk, IsMedia, IsValidUsername, Matches, Expected;
  }

  lemma ConfirmingIsSound(page: Page, d: Draft, a: Answer)
    requires IsSettled(page, d) && Rank(RootPassPage) < Rank(page)
    ensures IsSound(Confirming(page, d, a))
  {
    hide IsDisk, IsMedia, IsValidUsername;
  }

  lemma DiskIsNamed()
    ensures !IsDisk("")
  {
  }

  /** Whatever the answers, and however often the user goes back, an accepted
      draft is good. */
  lemma {:induction false} AcceptedIsGood(answers: seq<Answer>)
    ensures IsSound(Play(answers))
  {
    if answers != [] {
      AcceptedIsGood(answers[..|answers| - 1]);
      AdvanceIsSound(Play(answers[..|answers| - 1]), answers[|answers| - 1]);
    }
  }

  function Index(action: Action): nat {
    match action case Install => 0 case FormatOnly => 1 case Update => 2
  }

  lemma Leads(before: seq<Answer>, s: State, a: Answer, t: State)
    requires Play(before) == s && Advance(s, a) == t
    ensures Play(before + [a]) == t
  {
    hide Advance;
    assert (before + [a])[..|before + [a]| - 1] == before;
  }
}
