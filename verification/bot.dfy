/** The Telegram dialogue that edits the glossary: the eleven conversation
    states, the handler table registered by `run`, every handler as a pure
    function of the session and the incoming message, and `get_term_profile`.
    One conversation is modelled; replies, keyboards and logging are not. */
module Bot {
  import opened Wrappers
  import opened Text
  import DB = Database
  import TC = TermCollection

  /** The conversation states, in the order `range(11)` numbers them. */
  datatype Phase =
    | StartMenu | ChooseTerm | NewTerm | ChooseOption
    | Pos | Description | Synonyms | Similars | Image | Audio | Video

  /** The integer a handler returns for a state. */
  function Code(p: Phase): (n: nat)
    ensures n < 11
  {
    match p
    case StartMenu => 0
    case ChooseTerm => 1
    case NewTerm => 2
    case ChooseOption => 3
    case Pos => 4
    case Description => 5
    case Synonyms => 6
    case Similars => 7
    case Image => 8
    case Audio => 9
    case Video => 10
  }

  /** The state an integer stands for; `ConversationHandler.END` (-1) and every
      other integer outside `range(11)` stand for none. */
  function FromCode(n: int): (r: Option<Phase>)
    ensures r.Some? <==> 0 <= n < 11
    ensures r.Some? ==> Code(r.value) == n
  {
    if n == 0 then Some(StartMenu)
    else if n == 1 then Some(ChooseTerm)
    else if n == 2 then Some(NewTerm)
    else if n == 3 then Some(ChooseOption)
    else if n == 4 then Some(Pos)
    else if n == 5 then Some(Description)
    else if n == 6 then Some(Synonyms)
    else if n == 7 then Some(Similars)
    else if n == 8 then Some(Image)
    else if n == 9 then Some(Audio)
    else if n == 10 then Some(Video)
    else None
  }

  /** Numbering the states and reading the number back gives the state. */
  lemma CodeRoundTrip(p: Phase)
    ensures FromCode(Code(p)) == Some(p)
  {
  }

  const End: int := -1

  /** No conversation, or one in a state. Returning `End` leads back to `Idle`. */
  datatype Conv = Idle | Active(phase: Phase)

  /** What a user sends. A text beginning with `/` is a command and arrives as
      `Command` with the word after the slash; photos, audio and video carry no text. */
  datatype Message =
    | Typed(text: string)
    | Command(name: string)
    | PhotoSent
    | AudioSent
    | VideoSent

  /** `message.text` as a handler reads it. */
  function MessageText(m: Message): string
  {
    match m
    case Typed(t) => t
    case Command(n) => "/" + n
    case _ => ""
  }

  /** `CommandHandler(c)`: the command word matches regardless of case. */
  predicate IsCommand(m: Message, c: string)
  {
    m.Command? && Lower(m.name) == c
  }

  /** `Filters.text`: non-empty text that is not a command. */
  predicate Plain(t: string)
  {
    |t| > 0 && t[0] != '/'
  }

  /** `re.match('^lit$', t)`: `$` also matches just before a final newline. */
  predicate FullMatch(t: string, lit: string)
  {
    t == lit || t == lit + "\n"
  }

  /** `re.match('^[0-9]+$', t)`. */
  predicate NumeralLine(t: string)
  {
    IsNumeral(t) || (|t| >= 2 && t[|t| - 1] == '\n' && IsNumeral(t[..|t| - 1]))
  }

  /** The digits of a numeral line, which is what `int(...)` reads. */
  function NumeralOf(t: string): (r: string)
    requires NumeralLine(t)
    ensures IsNumeral(r) && r <= t
    ensures t == r || t == r + "\n"
  {
    if IsNumeral(t) then t else t[..|t| - 1]
  }

  /** `re.match('^(noun|verb|adjective)$', t)`: the member names of the tag enum. */
  predicate PosTagLine(t: string)
  {
    FullMatch(t, "noun") || FullMatch(t, "verb") || FullMatch(t, "adjective")
  }

  const MenuLabels: seq<string> := ["POS-tag", "Description", "Synonyms", "Similar words", "Image", "Audio", "Video"]

  /** The state each menu label leads to, position for position. */
  const MenuPhases: seq<Phase> := [Pos, Description, Synonyms, Similars, Image, Audio, Video]

  /** The menu pattern has no `$`: a text that merely starts with a label matches. */
  predicate MenuPrefixed(t: string)
  {
    exists k :: 0 <= k < |MenuLabels| && MenuLabels[k] <= t
  }

  /** The states in which `/terms` and `/menu` are registered (`/menu` in all but CHOOSE_OPTION). */
  predicate AfterChoice(p: Phase)
  {
    p in {ChooseOption, Pos, Description, Synonyms, Similars, Image, Audio, Video}
  }

  /** The callbacks of the handler table. */
  datatype Handler =
    | OnStart | OnNewTermOption | OnListOfTerms | OnAddNewTerm | OnChooseTerm | OnMenuOption
    | OnPosTag | OnDescription | OnSynonyms | OnSimilars | OnImage | OnAudio | OnVideo | OnCancel

  /** An editing state: its own handler when the message is accepted, then `/menu`, then `/terms`. */
  function Editing(m: Message, accepts: bool, h: Handler): Option<Handler>
  {
    if accepts then Some(h)
    else if IsCommand(m, "menu") then Some(OnMenuOption)
    else if IsCommand(m, "terms") then Some(OnListOfTerms)
    else None
  }

  /** The handlers registered for one state, tried in order. */
  function StateHandler(p: Phase, m: Message): Option<Handler>
  {
    match p
    case StartMenu =>
      if m.Typed? && FullMatch(m.text, "Add new term") then Some(OnNewTermOption)
      else if m.Typed? && FullMatch(m.text, "Get list of terms") then Some(OnListOfTerms)
      else None
    case ChooseTerm => if m.Typed? && NumeralLine(m.text) then Some(OnChooseTerm) else None
    case NewTerm => if m.Typed? && Plain(m.text) then Some(OnAddNewTerm) else None
    case ChooseOption =>
      if m.Typed? && MenuPrefixed(m.text) then Some(OnMenuOption)
      else if IsCommand(m, "terms") then Some(OnListOfTerms)
      else None
    case Pos => Editing(m, m.Typed? && PosTagLine(m.text), OnPosTag)
    case Description => Editing(m, m.Typed? && Plain(m.text), OnDescription)
    case Synonyms => Editing(m, m.Typed? && Plain(m.text), OnSynonyms)
    case Similars => Editing(m, m.Typed? && Plain(m.text), OnSimilars)
    case Image => Editing(m, m.PhotoSent?, OnImage)
    case Audio => Editing(m, m.AudioSent?, OnAudio)
    case Video => Editing(m, m.VideoSent?, OnVideo)
  }

  /** The `ConversationHandler`: without a conversation only the entry point
      `/start` is heard; within one, the state's handlers first and the `/cancel`
      fallback after them. */
  function Route(conv: Conv, m: Message): (r: Option<Handler>)
    ensures conv.Idle? ==> (r.Some? <==> IsCommand(m, "start"))
    ensures conv.Idle? && r.Some? ==> r.value == OnStart
    ensures conv.Active? && IsCommand(m, "cancel") ==> r == Some(OnCancel)
    ensures r == Some(OnCancel) ==> IsCommand(m, "cancel")
    ensures r == Some(OnMenuOption) ==> conv.Active? && AfterChoice(conv.phase)
  {
    match conv
    case Idle => if IsCommand(m, "start") then Some(OnStart) else None
    case Active(p) =>
      match StateHandler(p, m)
      case Some(h) => Some(h)
      case None => if IsCommand(m, "cancel") then Some(OnCancel) else None
  }

  /** `self.cur_term` is held across messages; the store is the database. */
  datatype Session = Session(store: TC.Store, conv: Conv, cur: Option<DB.Term>)

  /** The session a bot starts from. */
  const Initial: Session := Session(TC.Empty, Idle, None)

  /** What a callback does: the store, current term and state it leaves, or an
      exception, after which the dispatcher keeps the state it had. */
  datatype Outcome = Next(store: TC.Store, cur: Option<DB.Term>, conv: Conv) | Raised

  /** The source as written, or with the three defects listed in the README corrected. */
  datatype Build = AsWritten | Intended

  /** `xs[i]` on a Python list: a negative index counts from the end. */
  function PyIndex<T>(xs: seq<T>, i: int): (r: Option<T>)
    ensures r.Some? <==> -|xs| <= i < |xs|
    ensures r.Some? ==> r.value in xs
    ensures 0 <= i < |xs| ==> r == Some(xs[i])
  {
    if 0 <= i < |xs| then Some(xs[i])
    else if -|xs| <= i < 0 then Some(xs[|xs| + i])
    else None
  }

  /** The state `choose_menu_option` moves to for an exact label. */
  function LabelPhase(t: string): (r: Option<Phase>)
    ensures r.Some? <==> t in MenuLabels
    ensures forall k :: 0 <= k < |MenuLabels| && MenuLabels[k] == t ==> r == Some(MenuPhases[k])
  {
    if t == "POS-tag" then Some(Pos)
    else if t == "Description" then Some(Description)
    else if t == "Synonyms" then Some(Synonyms)
    else if t == "Similar words" then Some(Similars)
    else if t == "Image" then Some(Image)
    else if t == "Audio" then Some(Audio)
    else if t == "Video" then Some(Video)
    else None
  }

  /** `update(cur_term.id, {key: val})` and back to CHOOSE_OPTION. */
  function Edit(ses: Session, a: DB.Attribute, val: string): Outcome
  {
    match ses.cur
    case None => Raised
    case Some(t) =>
      match TC.Update(ses.store, t.id, [(a, val)])
      case Failure(_) => Raised
      case Success(s') => Next(s', ses.cur, Active(ChooseOption))
  }

  /** `s'` is the store after one write of the value `val` denotes into the
      current term's item `a`: in place, or as an appended term of its name
      when the term holds a different truthy value (`TC.UpdateKey`). */
  predicate OneWrite(ses: Session, a: DB.Attribute, val: string, s': TC.Store)
  {
    && ses.cur.Some?
    && TC.IndexOf(ses.store.terms, ses.cur.value.id).Some?
    && DB.ColumnValue(a, val).Some?
    && s' == TC.UpdateKey(ses.store, TC.IndexOf(ses.store.terms, ses.cur.value.id).value, a, DB.ColumnValue(a, val).value)
  }

  predicate IsMedia(p: Phase)
  {
    p == Image || p == Audio || p == Video
  }

  /** The message a media state waits for. */
  function MediaMessage(p: Phase): Message
    requires IsMedia(p)
  {
    if p == Image then PhotoSent else if p == Audio then AudioSent else VideoSent
  }

  /** The column a media state writes. */
  function MediaColumn(p: Phase): DB.Attribute
    requires IsMedia(p)
  {
    if p == Image then DB.Image else if p == Audio then DB.Audiofile else DB.Videofile
  }

  /** The prefix of the logical file name a media state stores. */
  function MediaPrefix(p: Phase): string
    requires IsMedia(p)
  {
    if p == Image then "image_" else if p == Audio then "audio_" else "video_"
  }

  /** The media state whose handler `h` is. */
  function HandlerMedia(h: Handler): (p: Phase)
    requires h == OnImage || h == OnAudio || h == OnVideo
    ensures IsMedia(p)
  {
    if h == OnImage then Image else if h == OnAudio then Audio else Video
  }

  /** A media handler stores `<prefix><current term's name>` under `a`. */
  function Upload(ses: Session, a: DB.Attribute, prefix: string): Outcome
  {
    match ses.cur
    case None => Raised
    case Some(t) => Edit(ses, a, prefix + t.name)
  }

  /** `synonyms` / `similars`: the comma-separated words go to
      `add_synonyms_similars`; what it returns is discarded. */
  function Relate(ses: Session, text: string, table: TC.Table): Outcome
  {
    match ses.cur
    case None => Raised
    case Some(t) =>
      match TC.AddSynonymsSimilars(ses.store, t.id, Words(text), table, [])
      case Failure(_) => Raised
      case Success(res) => Next(res.0, ses.cur, Active(ChooseOption))
  }

  /** The table a relating handler names: `'synonyms'` or `'similars'`, or, as
      written, `'syn'` and `'sim'`, which the store does not recognise. */
  function RelateTable(b: Build, h: Handler): TC.Table
    requires h == OnSynonyms || h == OnSimilars
  {
    if b == AsWritten then TC.Other else if h == OnSynonyms then TC.Synonyms else TC.Similars
  }

  /** `choose_term` once the numeral `n` is read: the term at index `n - 1` of
      the listing, where an index error keeps CHOOSE_TERM. */
  function Choose(ses: Session, n: nat): Outcome
  {
    match PyIndex(ses.store.terms, n - 1)
    case None => Next(ses.store, ses.cur, Active(ChooseTerm))
    case Some(t) => Next(ses.store, Some(t), Active(ChooseOption))
  }

  /** `pos_tag` with `update` comparing as written. */
  function EditAsWritten(ses: Session, text: string): Outcome
  {
    match ses.cur
    case None => Raised
    case Some(t) =>
      match TC.UpdateAsWritten(ses.store, t.id, DB.PosTag, text)
      case Failure(_) => Raised
      case Success(s') => Next(s', ses.cur, Active(ChooseOption))
  }

  /** The callback `h` on message `m`. */
  function Run(b: Build, h: Handler, ses: Session, m: Message): Outcome
  {
    var text := MessageText(m);
    match h
    case OnStart => Next(ses.store, ses.cur, Active(StartMenu))
    case OnNewTermOption => Next(ses.store, ses.cur, Active(NewTerm))
    case OnListOfTerms => Next(ses.store, ses.cur, Active(ChooseTerm))
    case OnAddNewTerm => Next(TC.Create(ses.store, text), ses.cur, Active(StartMenu))
    case OnChooseTerm =>
      if b == AsWritten then Raised  // the collection object is not subscriptable
      else if !NumeralLine(text) then Next(ses.store, ses.cur, Active(ChooseTerm))
      else Choose(ses, NumeralValue(NumeralOf(text)))
    case OnMenuOption =>
      (match LabelPhase(text)
       case None => Next(ses.store, ses.cur, Active(ChooseOption))
       case Some(p) => if ses.cur.None? then Raised else Next(ses.store, ses.cur, Active(p)))
    case OnPosTag => if b == AsWritten then EditAsWritten(ses, text) else Edit(ses, DB.PosTag, text)
    case OnDescription => Edit(ses, DB.Description, text)
    case OnImage | OnAudio | OnVideo => Upload(ses, MediaColumn(HandlerMedia(h)), MediaPrefix(HandlerMedia(h)))
    case OnSynonyms | OnSimilars => Relate(ses, text, RelateTable(b, h))
    case OnCancel => Next(ses.store, ses.cur, Idle)
  }

  /** One incoming message: no handler, or a handler that raises, leaves the session as it was. */
  function StepIn(b: Build, ses: Session, m: Message): Session
  {
    match Route(ses.conv, m)
    case None => ses
    case Some(h) =>
      match Run(b, h, ses, m)
      case Raised => ses
      case Next(store, cur, conv) => Session(store, conv, cur)
  }

  /** A message routed to `h` has the effect of `h`. */
  lemma StepThrough(b: Build, ses: Session, m: Message, h: Handler)
    requires Route(ses.conv, m) == Some(h)
    ensures StepIn(b, ses, m) == match Run(b, h, ses, m) case Raised => ses case Next(st, cur, conv) => Session(st, conv, cur)
  {
  }

  function Step(ses: Session, m: Message): Session
  {
    StepIn(Intended, ses, m)
  }

  function StepAsWritten(ses: Session, m: Message): Session
  {
    StepIn(AsWritten, ses, m)
  }

  // ----- the session invariant -----

  /** The store is valid, the current term is stored, and every state reached
      through `choose_term` has a current term. */
  predicate Good(ses: Session)
  {
    && TC.Valid(ses.store)
    && (ses.cur.Some? ==> ses.cur.value.id in TC.Ids(ses.store))
    && (ses.conv.Active? && AfterChoice(ses.conv.phase) ==> ses.cur.Some?)
  }

  lemma InitialGood()
    ensures Good(Initial)
  {
  }

  /** Every message keeps the session good, and no stored term is ever lost. */
  lemma StepKeepsGood(ses: Session, m: Message)
    requires Good(ses)
    ensures Good(Step(ses, m))
    ensures TC.Ids(ses.store) <= TC.Ids(Step(ses, m).store)
  {
    match Route(ses.conv, m)
    case None =>
    case Some(h) =>
      assert h == OnMenuOption ==> ses.conv.Active? && AfterChoice(ses.conv.phase);
      RunKeepsGood(h, ses, m);
  }

  lemma RunKeepsGood(h: Handler, ses: Session, m: Message)
    requires Good(ses)
    requires h == OnMenuOption ==> ses.cur.Some?
    ensures var o := Run(Intended, h, ses, m);
      o.Next? ==> Good(Session(o.store, o.conv, o.cur)) && TC.Ids(ses.store) <= TC.Ids(o.store)
  {
    var text := MessageText(m);
    match h
    case OnAddNewTerm => TC.CreateValid(ses.store, text);
    case OnPosTag | OnDescription =>
      RunEdit(Intended, h, ses, m);
      if ses.cur.Some? {
        EditKeepsGood(ses, if h == OnPosTag then DB.PosTag else DB.Description, text);
      }
    case OnImage | OnAudio | OnVideo => UploadKeepsGood(h, ses, m);
    case OnSynonyms | OnSimilars =>
      RelateRun(Intended, h, ses, m);
      RelateKeepsGood(ses, text, RelateTable(Intended, h));
    case OnChooseTerm => ChooseKeepsGood(ses, m);
    case _ =>
  }

  lemma UploadKeepsGood(h: Handler, ses: Session, m: Message)
    requires Good(ses) && h in {OnImage, OnAudio, OnVideo}
    ensures var o := Run(Intended, h, ses, m);
      o.Next? ==> Good(Session(o.store, o.conv, o.cur)) && TC.Ids(ses.store) <= TC.Ids(o.store)
  {
    var p := HandlerMedia(h);
    assert Run(Intended, h, ses, m) == Upload(ses, MediaColumn(p), MediaPrefix(p));
    if ses.cur.Some? {
      EditKeepsGood(ses, MediaColumn(p), MediaPrefix(p) + ses.cur.value.name);
    }
  }

  lemma ChooseKeepsGood(ses: Session, m: Message)
    requires Good(ses)
    ensures var o := Run(Intended, OnChooseTerm, ses, m);
      o.Next? ==> Good(Session(o.store, o.conv, o.cur)) && TC.Ids(ses.store) <= TC.Ids(o.store)
  {
    var text := MessageText(m);
    if NumeralLine(text) {
      var o := PyIndex(ses.store.terms, NumeralValue(NumeralOf(text)) - 1);
      if o.Some? {
        assert o.value.id in TC.Ids(ses.store);
      }
    }
  }

  lemma EditKeepsGood(ses: Session, a: DB.Attribute, val: string)
    requires Good(ses) && ses.cur.Some?
    ensures var o := Edit(ses, a, val);
      o.Next? ==> TC.Valid(o.store) && TC.Ids(ses.store) <= TC.Ids(o.store) && o.cur == ses.cur && o.conv == Active(ChooseOption)
  {
    var u := TC.Update(ses.store, ses.cur.value.id, [(a, val)]);
    if u.Success? {
      TC.UpdateValid(ses.store, ses.cur.value.id, [(a, val)]);
    }
  }

  lemma RelateKeepsGood(ses: Session, text: string, table: TC.Table)
    requires Good(ses)
    ensures var o := Relate(ses, text, table);
      o.Next? ==> TC.Valid(o.store) && TC.Ids(ses.store) <= TC.Ids(o.store) && o.cur == ses.cur && o.conv == Active(ChooseOption)
  {
    if ses.cur.Some? {
      var u := TC.AddSynonymsSimilars(ses.store, ses.cur.value.id, Words(text), table, []);
      if u.Success? {
        TC.AddSynonymsSimilarsValid(ses.store, ses.cur.value.id, Words(text), table, []);
      }
    }
  }

  // ----- the dialogue, state by state -----

  /** Without a conversation only `/start` is heard, and it opens the start menu. */
  lemma StartEntersStartMenu(ses: Session, m: Message)
    requires ses.conv.Idle?
    ensures Step(ses, m) == if IsCommand(m, "start") then ses.(conv := Active(StartMenu)) else ses
  {
  }

  /** In START_MENU only the two exact labels move the state (to NEW_TERM and
      CHOOSE_TERM), `/cancel` ends the conversation, and every other message
      changes nothing; the store is never touched. */
  lemma StartMenuOnlyLabels(ses: Session, m: Message)
    requires ses.conv == Active(StartMenu)
    ensures Step(ses, m) ==
      if m.Typed? && FullMatch(m.text, "Add new term") then ses.(conv := Active(NewTerm))
      else if m.Typed? && FullMatch(m.text, "Get list of terms") then ses.(conv := Active(ChooseTerm))
      else if IsCommand(m, "cancel") then ses.(conv := Idle)
      else ses
  {
  }

  /** In NEW_TERM any text is created as a term (lower-cased, once) and the state
      returns to START_MENU; afterwards a term with that name is stored. */
  lemma NewTermCreates(ses: Session, t: string)
    requires ses.conv == Active(NewTerm) && Plain(t)
    ensures Step(ses, Typed(t)) == Session(TC.Create(ses.store, t), Active(StartMenu), ses.cur)
    ensures TC.HasName(Step(ses, Typed(t)).store.terms, Lower(t))
  {
  }

  /** In CHOOSE_TERM, typing the number `k` shown next to the k-th listed term
      (the terms in storage order, numbered from 1) selects that term and opens
      the menu. */
  lemma ChooseTermSelectsListed(ses: Session, k: nat)
    requires ses.conv == Active(ChooseTerm)
    requires 1 <= k <= |ses.store.terms|
    ensures Step(ses, Typed(Digits(k))) == Session(ses.store, Active(ChooseOption), Some(ses.store.terms[k - 1]))
  {
    NumeralRoundTrip(k);
    assert NumeralOf(Digits(k)) == Digits(k);
  }

  /** A number beyond the listing keeps CHOOSE_TERM and the current term. */
  lemma ChooseTermOutOfRange(ses: Session, t: string)
    requires ses.conv == Active(ChooseTerm) && NumeralLine(t)
    requires NumeralValue(NumeralOf(t)) > |ses.store.terms|
    ensures Step(ses, Typed(t)) == ses
  {
  }

  /** `0` gives index -1, which on a Python list is the last term; with no term
      stored it is out of range like any other number. */
  lemma ChooseTermZero(ses: Session)
    requires ses.conv == Active(ChooseTerm)
    ensures |ses.store.terms| > 0 ==>
      Step(ses, Typed("0")) == Session(ses.store, Active(ChooseOption), Some(ses.store.terms[|ses.store.terms| - 1]))
    ensures |ses.store.terms| == 0 ==> Step(ses, Typed("0")) == ses
  {
    assert NumeralOf("0") == "0";
    assert NumeralValue("0") == 0 by {
      assert "0"[..0] == "";
    }
  }

  /** Each of the seven exact labels leads to its own state, with the current
      term and store unchanged. */
  lemma MenuLabelsMap(ses: Session, k: nat)
    requires ses.conv == Active(ChooseOption) && ses.cur.Some?
    requires k < |MenuLabels|
    ensures Step(ses, Typed(MenuLabels[k])) == ses.(conv := Active(MenuPhases[k]))
  {
    assert MenuLabels[k] <= MenuLabels[k];
  }

  /** `choose_menu_option` on anything but an exact label stays in CHOOSE_OPTION:
      a text that only starts with a label, and `/menu` from an editing state. */
  lemma MenuOtherTextStays(ses: Session, m: Message)
    requires ses.conv.Active? && AfterChoice(ses.conv.phase)
    requires (ses.conv.phase == ChooseOption && m.Typed? && MenuPrefixed(m.text)) || (ses.conv.phase != ChooseOption && IsCommand(m, "menu"))
    requires MessageText(m) !in MenuLabels
    ensures Step(ses, m) == ses.(conv := Active(ChooseOption))
  {
    assert Route(ses.conv, m) == Some(OnMenuOption);
  }

  /** In POS an exact tag name is the one `update` of the current term's tag,
      which succeeds; the state returns to CHOOSE_OPTION. */
  lemma PosTagOneUpdate(ses: Session, p: DB.POS)
    requires Good(ses) && ses.conv == Active(Pos)
    ensures TC.Update(ses.store, ses.cur.value.id, [(DB.PosTag, DB.PosName(p))]).Success?
    ensures Step(ses, Typed(DB.PosName(p))) ==
      Session(TC.Update(ses.store, ses.cur.value.id, [(DB.PosTag, DB.PosName(p))]).value, Active(ChooseOption), ses.cur)
    ensures OneWrite(ses, DB.PosTag, DB.PosName(p), Step(ses, Typed(DB.PosName(p))).store)
  {
    var t := DB.PosName(p);
    assert Route(ses.conv, Typed(t)) == Some(OnPosTag);
    StepThrough(Intended, ses, Typed(t), OnPosTag);
    RunEdit(Intended, OnPosTag, ses, Typed(t));
    EditSucceeds(ses, DB.PosTag, t);
  }

  /** In POS a text that is not exactly a tag name is ignored. */
  lemma PosOtherTextIgnored(ses: Session, t: string)
    requires ses.conv == Active(Pos) && !PosTagLine(t)
    ensures Step(ses, Typed(t)) == ses
  {
  }

  /** In DESCRIPTION any text is the one `update` of the current term's
      description, which succeeds; the state returns to CHOOSE_OPTION. */
  lemma DescriptionOneUpdate(ses: Session, t: string)
    requires Good(ses) && ses.conv == Active(Description) && Plain(t)
    ensures TC.Update(ses.store, ses.cur.value.id, [(DB.Description, t)]).Success?
    ensures Step(ses, Typed(t)) ==
      Session(TC.Update(ses.store, ses.cur.value.id, [(DB.Description, t)]).value, Active(ChooseOption), ses.cur)
    ensures OneWrite(ses, DB.Description, t, Step(ses, Typed(t)).store)
  {
    assert Route(ses.conv, Typed(t)) == Some(OnDescription);
    StepThrough(Intended, ses, Typed(t), OnDescription);
    RunEdit(Intended, OnDescription, ses, Typed(t));
    EditSucceeds(ses, DB.Description, t);
  }

  /** The tag and description handlers edit their column with the message text. */
  lemma RunEdit(b: Build, h: Handler, ses: Session, m: Message)
    requires h == OnDescription || (h == OnPosTag && b == Intended)
    ensures Run(b, h, ses, m) == Edit(ses, if h == OnPosTag then DB.PosTag else DB.Description, MessageText(m))
  {
  }

  /** The media handlers store the logical name `image_`/`audio_`/`video_` followed
      by the current term's name in `image`/`audiofile`/`videofile`, and return
      to CHOOSE_OPTION. */
  lemma MediaStoresName(ses: Session)
    requires Good(ses) && ses.conv.Active? && IsMedia(ses.conv.phase)
    ensures var p := ses.conv.phase;
      var changes := [(MediaColumn(p), MediaPrefix(p) + ses.cur.value.name)];
      && TC.Update(ses.store, ses.cur.value.id, changes).Success?
      && Step(ses, MediaMessage(p)) == Session(TC.Update(ses.store, ses.cur.value.id, changes).value, Active(ChooseOption), ses.cur)
  {
    var p := ses.conv.phase;
    var val := MediaPrefix(p) + ses.cur.value.name;
    MediaThrough(ses);
    EditSucceeds(ses, MediaColumn(p), val);
  }

  /** The `update` a media handler makes writes the logical name once into the
      state's column of the current term. */
  lemma MediaWritesOnce(ses: Session)
    requires Good(ses) && ses.conv.Active? && IsMedia(ses.conv.phase)
    ensures var p := ses.conv.phase;
      var val := MediaPrefix(p) + ses.cur.value.name;
      OneWrite(ses, MediaColumn(p), val, TC.Update(ses.store, ses.cur.value.id, [(MediaColumn(p), val)]).value)
  {
    var p := ses.conv.phase;
    EditSucceeds(ses, MediaColumn(p), MediaPrefix(p) + ses.cur.value.name);
  }

  /** A media message in its media state runs the edit of that state's column. */
  lemma MediaThrough(ses: Session)
    requires ses.conv.Active? && IsMedia(ses.conv.phase) && ses.cur.Some?
    ensures var p := ses.conv.phase;
      Step(ses, MediaMessage(p)) ==
        match Edit(ses, MediaColumn(p), MediaPrefix(p) + ses.cur.value.name)
        case Raised => ses
        case Next(st, cur, conv) => Session(st, conv, cur)
  {
    var p := ses.conv.phase;
    MediaRoute(p, ses.conv);
    StepThrough(Intended, ses, MediaMessage(p), MediaHandler(p));
    MediaRun(p, ses);
  }

  /** The handler registered for a media state. */
  function MediaHandler(p: Phase): Handler
    requires IsMedia(p)
  {
    if p == Image then OnImage else if p == Audio then OnAudio else OnVideo
  }

  /** A media state hands its own kind of message to its own handler. */
  lemma MediaRoute(p: Phase, conv: Conv)
    requires IsMedia(p) && conv == Active(p)
    ensures Route(conv, MediaMessage(p)) == Some(MediaHandler(p))
  {
  }

  /** A media handler uploads into its own state's column. */
  lemma MediaRun(p: Phase, ses: Session)
    requires IsMedia(p)
    ensures Run(Intended, MediaHandler(p), ses, MediaMessage(p)) == Upload(ses, MediaColumn(p), MediaPrefix(p))
  {
    assert HandlerMedia(MediaHandler(p)) == p;
  }

  /** An edit of the current, stored term with a value its column takes succeeds. */
  lemma EditSucceeds(ses: Session, a: DB.Attribute, val: string)
    requires Good(ses) && ses.cur.Some? && DB.ColumnValue(a, val).Some?
    ensures TC.Update(ses.store, ses.cur.value.id, [(a, val)]).Success?
    ensures Edit(ses, a, val) == Next(TC.Update(ses.store, ses.cur.value.id, [(a, val)]).value, ses.cur, Active(ChooseOption))
    ensures OneWrite(ses, a, val, TC.Update(ses.store, ses.cur.value.id, [(a, val)]).value)
  {
    TC.UpdateOneKey(ses.store, ses.cur.value.id, a, val);
  }

  /** The synonym and similar-word handlers hand `add_synonyms_similars` one word
      per comma-separated piece, in order, and always return to CHOOSE_OPTION,
      whatever the store returns. */
  lemma RelateAlwaysReturns(ses: Session, t: string)
    requires Good(ses) && ses.conv.Active? && ses.conv.phase in {Synonyms, Similars} && Plain(t)
    ensures |Words(t)| == Count(t, ',') + 1
    ensures var table := if ses.conv.phase == Synonyms then TC.Synonyms else TC.Similars;
      var res := TC.AddSynonymsSimilars(ses.store, ses.cur.value.id, Words(t), table, []);
      && res.Success?
      && Step(ses, Typed(t)) == Session(res.value.0, Active(ChooseOption), ses.cur)
  {
    RelateThrough(Intended, ses, t);
  }

  /** The handler registered for a relating state. */
  function RelateHandler(p: Phase): (h: Handler)
    requires p == Synonyms || p == Similars
    ensures h == OnSynonyms || h == OnSimilars
    ensures RelateTable(Intended, h) == if p == Synonyms then TC.Synonyms else TC.Similars
  {
    if p == Synonyms then OnSynonyms else OnSimilars
  }

  /** A text in a relating state goes to `add_synonyms_similars` with the table
      its handler names, which returns, and the state moves to CHOOSE_OPTION. */
  lemma RelateThrough(b: Build, ses: Session, t: string)
    requires Good(ses) && ses.conv.Active? && ses.conv.phase in {Synonyms, Similars} && Plain(t)
    ensures var table := RelateTable(b, RelateHandler(ses.conv.phase));
      var res := TC.AddSynonymsSimilars(ses.store, ses.cur.value.id, Words(t), table, []);
      && res.Success?
      && StepIn(b, ses, Typed(t)) == Session(res.value.0, Active(ChooseOption), ses.cur)
  {
    var h := RelateHandler(ses.conv.phase);
    RelateRoute(ses.conv, t);
    StepThrough(b, ses, Typed(t), h);
    RelateRun(b, h, ses, Typed(t));
    RelateOutcome(ses, t, RelateTable(b, h));
  }

  /** A relating state hands any plain text to its own handler. */
  lemma RelateRoute(conv: Conv, t: string)
    requires conv.Active? && conv.phase in {Synonyms, Similars} && Plain(t)
    ensures Route(conv, Typed(t)) == Some(RelateHandler(conv.phase))
  {
  }

  /** A relating handler passes the text to `Relate` with the table it names. */
  lemma RelateRun(b: Build, h: Handler, ses: Session, m: Message)
    requires h == OnSynonyms || h == OnSimilars
    ensures Run(b, h, ses, m) == Relate(ses, MessageText(m), RelateTable(b, h))
  {
  }

  /** What `Relate` leaves when the store call succeeds. */
  lemma RelateOutcome(ses: Session, t: string, table: TC.Table)
    requires ses.cur.Some? && (ses.cur.value.id in TC.Ids(ses.store) || table == TC.Other)
    ensures var res := TC.AddSynonymsSimilars(ses.store, ses.cur.value.id, Words(t), table, []);
      && res.Success?
      && Relate(ses, t, table) == Next(res.value.0, ses.cur, Active(ChooseOption))
  {
    TC.AddWordsCreatesEachWordOnce(ses.store, ses.cur.value.id, Words(t), table);
  }

  /** After a list of synonyms, every word with exactly one matching term is
      linked with the current term in both directions. */
  lemma SynonymsLinkUniqueMatch(ses: Session, t: string, k: nat)
    requires Good(ses) && ses.conv == Active(Synonyms) && Plain(t)
    requires k < |Words(t)|
    ensures var r := Step(ses, Typed(t));
      var m := TC.Named(r.store.terms, Lower(Words(t)[k]));
      |m| == 1 ==> (ses.cur.value.id, m[0].id) in r.store.synonyms && (m[0].id, ses.cur.value.id) in r.store.synonyms
  {
    RelateAlwaysReturns(ses, t);
    TC.AddWordsLinkIsSymmetric(ses.store, ses.cur.value.id, Words(t), TC.Synonyms, k);
  }

  /** `/cancel` ends the conversation from every state, keeping store and current term. */
  lemma CancelEnds(ses: Session)
    requires ses.conv.Active?
    ensures Step(ses, Command("cancel")) == ses.(conv := Idle)
  {
    assert Lower("cancel") == "cancel";
    assert Route(ses.conv, Command("cancel")) == Some(OnCancel);
    StepThrough(Intended, ses, Command("cancel"), OnCancel);
  }

  /** `/terms` lists the terms (CHOOSE_TERM) from CHOOSE_OPTION and the seven
      editing states, and is ignored in START_MENU, NEW_TERM and CHOOSE_TERM. */
  lemma TermsCommand(ses: Session)
    requires ses.conv.Active?
    ensures Step(ses, Command("terms")) == if AfterChoice(ses.conv.phase) then ses.(conv := Active(ChooseTerm)) else ses
  {
    assert Lower("terms") == "terms";
    if AfterChoice(ses.conv.phase) {
      assert Route(ses.conv, Command("terms")) == Some(OnListOfTerms);
      StepThrough(Intended, ses, Command("terms"), OnListOfTerms);
    } else {
      assert Route(ses.conv, Command("terms")) == None;
    }
  }

  // ----- the source as written -----

  /** As written, `choose_term` indexes the collection object itself, which raises
      a `TypeError` the handler does not catch: every numeral leaves the
      conversation in CHOOSE_TERM and no term is ever chosen. */
  lemma ChooseTermAsWrittenStalls(ses: Session, t: string)
    requires ses.conv == Active(ChooseTerm) && NumeralLine(t)
    ensures StepAsWritten(ses, Typed(t)) == ses
  {
  }

  /** As written, the handlers pass `'syn'` and `'sim'`, which the store does not
      recognise: the words are created but nothing is linked. */
  lemma SynonymsAsWrittenLinkNothing(ses: Session, t: string)
    requires Good(ses) && ses.conv.Active? && ses.conv.phase in {Synonyms, Similars} && Plain(t)
    ensures var r := StepAsWritten(ses, Typed(t));
      && r.conv == Active(ChooseOption)
      && r.store.synonyms == ses.store.synonyms
      && r.store.similars == ses.store.similars
      && forall k :: 0 <= k < |Words(t)| ==> TC.HasName(r.store.terms, Lower(Words(t)[k]))
  {
    RelateThrough(AsWritten, ses, t);
    TC.AddWordsOtherLinksNothing(ses.store, ses.cur.value.id, Words(t));
  }

  // ----- the profile -----

  predicate EndsWith(s: string, x: string)
  {
    |x| <= |s| && s[|s| - |x|..] == x
  }

  /** `get_term_profile`: a line `1. POSEnum.<tag>` when a tag is set and a line
      `2. <description>` when the description is non-empty. */
  function Profile(t: DB.Term): (r: string)
    ensures r == "" <==> t.posTag.None? && !DB.Truthy(DB.OfString(t.description))
    ensures t.posTag.Some? ==> "1. " + DB.PosText(t.posTag.value) + "\n" <= r
    ensures t.posTag.None? && r != "" ==> "2. " <= r
    ensures DB.Truthy(DB.OfString(t.description)) ==> EndsWith(r, "2. " + t.description.value + "\n")
    ensures !DB.Truthy(DB.OfString(t.description)) ==> |r| == 0 || r[|r| - 1] == '\n'
    ensures |r| == (if t.posTag.Some? then |"1. " + DB.PosText(t.posTag.value) + "\n"| else 0)
                 + (if DB.Truthy(DB.OfString(t.description)) then |"2. " + t.description.value + "\n"| else 0)
  {
    var tag := match t.posTag case None => "" case Some(p) => "1. " + DB.PosText(p) + "\n";
    var desc := if DB.Truthy(DB.OfString(t.description)) then "2. " + t.description.value + "\n" else "";
    tag + desc
  }
}
