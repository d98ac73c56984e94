/**
 * The access gate of the bot's `/start` command and of its "back" button
 * (commands/start.js).
 *
 * `handleStart` loads the user registry, classifies the requesting user as
 * banned, admin, approved or restricted, answers with the matching screen and,
 * for a restricted user not yet pending, appends the user to `pending`, saves
 * the registry and notifies the administrator. Here the registry goes in and
 * comes out as a value, and every call to the bot transport, to `saveDB` and to
 * `notifyAdmin` is an entry of an effect trace, in the order the source makes
 * the calls.
 */
module Start {
  import opened Wrappers
  import opened Ids
  import Escape

  // ---------------------------------------------------------------------------
  // Data
  // ---------------------------------------------------------------------------

  /**
   * The configuration the gate reads: `Number(ADMIN_UID)`, which is `None` when
   * the configured value is not a number (NaN equals nothing), and `ADMIN_USERNAME`.
   */
  datatype Config = Config(adminUid: Option<int>, adminUsername: string)

  /** The Telegram user an update comes from (`msg.from`, `query.from`). */
  datatype User = User(id: int, username: Option<string>)

  /** The persisted registry as `loadDB` returns it and `saveDB` stores it. */
  datatype UserDB = UserDB(approved: seq<StoredId>, banned: seq<StoredId>, pending: seq<StoredId>)

  /** One inline-keyboard button. */
  datatype Button = Button(text: string, callbackData: string)

  /** Rows of buttons, as `reply_markup.inline_keyboard` lists them. */
  type Keyboard = seq<seq<Button>>

  /**
   * The message bodies. Their wording is fixed text; what varies is the escaped
   * username in the user welcome, and the escaped username, id, raw username and
   * administrator handle in the restricted notice.
   */
  datatype Text =
    | BanNotice
    | AdminWelcome
    | UserWelcome(cleanUsername: string)
    | RestrictedNotice(cleanUsername: string, uid: int, username: string, adminUsername: string)

  /** Whether a message is sent with `parse_mode: 'Markdown'`. */
  datatype ParseMode = PlainText | Markdown

  /** One outgoing call. */
  datatype Effect =
    | SendMessage(chatId: int, text: Text, parseMode: ParseMode, replyMarkup: Option<Keyboard>)
    | AnswerCallbackQuery(callbackId: string)
    | EditMessageText(chatId: int, messageId: int, text: Text, parseMode: ParseMode, keyboard: Keyboard)
    | SaveDB(db: UserDB)
    | NotifyAdmin(uid: int, username: string, reapproval: bool)

  /** What one event leaves behind: the registry as stored afterwards, and the calls made. */
  datatype Outcome = Outcome(db: UserDB, effects: seq<Effect>)

  /** The access tiers, in the order the gate tests them. */
  datatype Tier = Banned | Admin | Approved | Restricted

  // ---------------------------------------------------------------------------
  // Classification (lines 24-42)
  // ---------------------------------------------------------------------------

  /** `from.username || 'NoUsername'`: an absent or empty username falls back to the placeholder. */
  function DisplayName(username: Option<string>): (r: string)
    ensures r != []
    ensures username.Some? && username.value != [] ==> r == username.value
    ensures username.None? || username.value == [] ==> r == "NoUsername"
  {
    match username
    case Some(name) => if name != [] then name else "NoUsername"
    case None => "NoUsername"
  }

  /** `uid === Number(ADMIN_UID)`. */
  predicate IsAdmin(cfg: Config, uid: int)
  {
    cfg.adminUid == Some(uid)
  }

  /**
   * At most one user is the admin, and nobody is when the configured id is not
   * a number.
   */
  lemma AdminIsUnique(cfg: Config, a: int, b: int)
    ensures IsAdmin(cfg, a) && IsAdmin(cfg, b) ==> a == b
    ensures cfg.adminUid.None? ==> !IsAdmin(cfg, a)
  {
  }

  /** The tier of `uid`: the ban is tested first, then admin, then approval. */
  function Classify(cfg: Config, db: UserDB, uid: int): (t: Tier)
    ensures t == Banned <==> Listed(db.banned, uid)
    ensures t == Admin <==> !Listed(db.banned, uid) && IsAdmin(cfg, uid)
    ensures t == Approved <==> !Listed(db.banned, uid) && !IsAdmin(cfg, uid) && Listed(db.approved, uid)
    ensures t == Restricted <==> !Listed(db.banned, uid) && !IsAdmin(cfg, uid) && !Listed(db.approved, uid)
  {
    if Listed(db.banned, uid) then Banned
    else if IsAdmin(cfg, uid) then Admin
    else if Listed(db.approved, uid) then Approved
    else Restricted
  }

  // ---------------------------------------------------------------------------
  // Screens (lines 43-107, 111-133)
  // ---------------------------------------------------------------------------

  /** The two rows every privileged user gets: Gen and TempMail, then 2FA and Uptime. */
  const MemberKeyboard: Keyboard := [
    [Button("\U{1F4B3} Gen", "gen"), Button("\U{1F4E9} TempMail", "tempmail")],
    [Button("\U{1F510} 2FA", "2fa"), Button("\U{1F552} Uptime", "uptime")]
  ]

  /** The admin's keyboard: a first row holding only Users, then the member rows. */
  const AdminKeyboard: Keyboard := [[Button("\U{1F4C4} Users", "users")]] + MemberKeyboard

  /** The `callback_data` of each button, row by row. */
  function CallbackRows(k: Keyboard): (rows: seq<seq<string>>)
    ensures |rows| == |k|
    ensures forall i :: 0 <= i < |k| ==> |rows[i]| == |k[i]|
  {
    seq(|k|, i requires 0 <= i < |k| => seq(|k[i]|, j requires 0 <= j < |k[i]| => k[i][j].callbackData))
  }

  /**
   * The admin's keyboard has three rows with Users alone in the first; an
   * approved user's has only the Gen/TempMail and 2FA/Uptime rows.
   */
  lemma KeyboardRows()
    ensures CallbackRows(AdminKeyboard) == [["users"], ["gen", "tempmail"], ["2fa", "uptime"]]
    ensures CallbackRows(MemberKeyboard) == [["gen", "tempmail"], ["2fa", "uptime"]]
  {
    var a := CallbackRows(AdminKeyboard);
    assert a[0] == ["users"] && a[1] == ["gen", "tempmail"] && a[2] == ["2fa", "uptime"];
    var m := CallbackRows(MemberKeyboard);
    assert m[0] == ["gen", "tempmail"] && m[1] == ["2fa", "uptime"];
  }

  /** `callbackId && messageId`: both present and truthy (a non-empty id, a non-zero message id). */
  predicate EditsInPlace(callbackId: Option<string>, messageId: Option<int>)
  {
    callbackId.Some? && callbackId.value != [] && messageId.Some? && messageId.value != 0
  }

  /**
   * The privileged screen: acknowledge and edit in place, or send afresh.
   * Every call goes to the transport and carries the screen in Markdown.
   */
  function ShowScreen(chatId: int, text: Text, keyboard: Keyboard,
                      callbackId: Option<string>, messageId: Option<int>): (r: seq<Effect>)
    ensures |r| == if EditsInPlace(callbackId, messageId) then 2 else 1
    ensures r[0].AnswerCallbackQuery? <==> EditsInPlace(callbackId, messageId)
    ensures EditsInPlace(callbackId, messageId) ==>
              r[0] == AnswerCallbackQuery(callbackId.value)
              && r[1] == EditMessageText(chatId, messageId.value, text, Markdown, keyboard)
    ensures !EditsInPlace(callbackId, messageId) ==> r[0] == SendMessage(chatId, text, Markdown, Some(keyboard))
    ensures forall k :: 0 <= k < |r| ==> KindOf(r[k]) == Transport
  {
    if EditsInPlace(callbackId, messageId) then
      [AnswerCallbackQuery(callbackId.value), EditMessageText(chatId, messageId.value, text, Markdown, keyboard)]
    else
      [SendMessage(chatId, text, Markdown, Some(keyboard))]
  }

  /**
   * `callbackId && messageId` is JavaScript truthiness: an empty query id or a
   * message id of 0 counts as absent, and the screen is sent afresh.
   */
  lemma FalsyIdsSendAfresh(chatId: int, text: Text, keyboard: Keyboard, callbackId: Option<string>, messageId: Option<int>)
    requires callbackId == None || callbackId == Some("") || messageId == None || messageId == Some(0)
    ensures ShowScreen(chatId, text, keyboard, callbackId, messageId) == [SendMessage(chatId, text, Markdown, Some(keyboard))]
  {
  }

  /**
   * The restricted notice sent to `from` (line 133): a Markdown message without
   * a keyboard, naming the user's id, the username both raw and escaped, and the
   * administrator's handle.
   */
  function RestrictedReply(cfg: Config, chatId: int, from: User): (r: Effect)
    ensures r.SendMessage? && r.chatId == chatId && r.parseMode == Markdown && r.replyMarkup.None?
    ensures r.text.RestrictedNotice? && r.text.uid == from.id && r.text.adminUsername == cfg.adminUsername
    ensures r.text.username == DisplayName(from.username) && r.text.username != []
    ensures r.text.cleanUsername == Escape.Escape(r.text.username)
  {
    var username := DisplayName(from.username);
    SendMessage(chatId, RestrictedNotice(Escape.Escape(username), from.id, username, cfg.adminUsername), Markdown, None)
  }

  /** The escaped name in the notice determines the raw one: removing the inserted backslashes gives it back. */
  lemma NoticeNamesUser(cfg: Config, chatId: int, from: User)
    ensures Escape.Unescape(RestrictedReply(cfg, chatId, from).text.cleanUsername) == DisplayName(from.username)
  {
    Escape.UnescapeEscape(DisplayName(from.username));
  }

  // ---------------------------------------------------------------------------
  // The kinds of calls in a trace
  // ---------------------------------------------------------------------------

  /** Calls to the bot transport, to `saveDB`, and to `notifyAdmin`. */
  datatype Kind = Transport | Persist | Notify

  function KindOf(e: Effect): Kind
  {
    match e
    case SendMessage(_, _, _, _) => Transport
    case AnswerCallbackQuery(_) => Transport
    case EditMessageText(_, _, _, _, _) => Transport
    case SaveDB(_) => Persist
    case NotifyAdmin(_, _, _) => Notify
  }

  /** The calls of one kind, in trace order. */
  function Only(effects: seq<Effect>, kind: Kind): (r: seq<Effect>)
    ensures |r| <= |effects|
    ensures forall e :: e in r ==> e in effects && KindOf(e) == kind
  {
    if effects == [] then [] else Pick(effects[0], kind) + Only(effects[1..], kind)
  }

  /** The call itself if it is of the given kind, nothing otherwise. */
  function Pick(e: Effect, kind: Kind): seq<Effect>
  {
    if KindOf(e) == kind then [e] else []
  }

  /** Selecting calls of one kind distributes over concatenated traces. */
  lemma {:induction false} OnlyAppend(a: seq<Effect>, b: seq<Effect>, kind: Kind)
    ensures Only(a + b, kind) == Only(a, kind) + Only(b, kind)
  {
    if a == [] {
      assert a + b == b;
    } else {
      var head := Pick(a[0], kind);
      calc {
        Only(a + b, kind);
        == { assert (a + b)[0] == a[0]; assert (a + b)[1..] == a[1..] + b; }
        head + Only(a[1..] + b, kind);
        == { OnlyAppend(a[1..], b, kind); }
        head + (Only(a[1..], kind) + Only(b, kind));
        (head + Only(a[1..], kind)) + Only(b, kind);
        Only(a, kind) + Only(b, kind);
      }
    }
  }

  /** Selecting from a three-call trace, one call at a time. */
  lemma OnlyOfThree(x: Effect, y: Effect, z: Effect, kind: Kind)
    ensures Only([x, y, z], kind) == Only([x], kind) + Only([y], kind) + Only([z], kind)
  {
    assert [x, y, z] == [x] + [y] + [z];
    OnlyAppend([x] + [y], [z], kind);
    OnlyAppend([x], [y], kind);
  }

  // ---------------------------------------------------------------------------
  // The gate
  // ---------------------------------------------------------------------------

  /**
   * What `handleStart(bot, chatId, from, callbackId, messageId)` does, given the
   * registry `db` that `loadDB` returns.
   */
  function Respond(cfg: Config, db: UserDB, chatId: int, from: User,
                   callbackId: Option<string>, messageId: Option<int>): (r: Outcome)
    // Only `pending` can change, and only by appending the user once at its end,
    // and only for a restricted user who was not pending.
    ensures r.db.approved == db.approved && r.db.banned == db.banned
    ensures r.db.pending == db.pending ||
            (r.db.pending == db.pending + [Num(from.id)]
             && Classify(cfg, db, from.id) == Restricted && !Listed(db.pending, from.id))
    // saveDB is called exactly when the registry changes, with the new registry;
    // notifyAdmin exactly then too.
    ensures Only(r.effects, Persist) == if r.db == db then [] else [SaveDB(r.db)]
    ensures Only(r.effects, Notify) ==
              if r.db == db then [] else [NotifyAdmin(from.id, DisplayName(from.username), false)]
    // A banned user gets the denial alone, even the admin.
    ensures Listed(db.banned, from.id) ==> r == Outcome(db, [SendMessage(chatId, BanNotice, PlainText, None)])
    // The admin gets the admin welcome and keyboard; an approved user the personal welcome
    // and the member keyboard; both by an in-place edit after answering the callback
    // iff both ids are given, and by one fresh message otherwise.
    ensures Classify(cfg, db, from.id) == Admin ==>
              r == Outcome(db, ShowScreen(chatId, AdminWelcome, AdminKeyboard, callbackId, messageId))
    ensures Classify(cfg, db, from.id) == Approved ==>
              r == Outcome(db, ShowScreen(chatId, UserWelcome(Escape.Escape(DisplayName(from.username))),
                                          MemberKeyboard, callbackId, messageId))
    // A restricted user gets the restricted notice first, whatever the callback ids say.
    ensures Classify(cfg, db, from.id) == Restricted ==>
              |r.effects| >= 1 && r.effects[0] == RestrictedReply(cfg, chatId, from)
              && Only(r.effects, Transport) == [RestrictedReply(cfg, chatId, from)]
              && (r.db == db <==> Listed(db.pending, from.id))
    // ... followed, only for a user not yet pending, by the save and then the notification.
    ensures Classify(cfg, db, from.id) == Restricted ==>
              r.effects == if Listed(db.pending, from.id) then [RestrictedReply(cfg, chatId, from)]
                           else [RestrictedReply(cfg, chatId, from), SaveDB(r.db),
                                 NotifyAdmin(from.id, DisplayName(from.username), false)]
  {
    match Classify(cfg, db, from.id)
    case Banned =>
      Outcome(db, [SendMessage(chatId, BanNotice, PlainText, None)])
    case Admin =>
      Privileged(db, ShowScreen(chatId, AdminWelcome, AdminKeyboard, callbackId, messageId))
    case Approved =>
      Privileged(db, ShowScreen(chatId, UserWelcome(Escape.Escape(DisplayName(from.username))),
                                MemberKeyboard, callbackId, messageId))
    case Restricted =>
      RestrictedTransport(cfg, db, chatId, from);
      RestrictedSave(cfg, db, chatId, from);
      RestrictedNotify(cfg, db, chatId, from);
      RestrictedOutcome(cfg, db, chatId, from)
  }

  /** A privileged screen leaves the registry alone and makes no call but to the transport. */
  function Privileged(db: UserDB, screen: seq<Effect>): (r: Outcome)
    requires forall k :: 0 <= k < |screen| ==> KindOf(screen[k]) == Transport
    ensures r == Outcome(db, screen)
    ensures Only(r.effects, Persist) == [] && Only(r.effects, Notify) == []
  {
    OnlyNone(screen, Persist);
    OnlyNone(screen, Notify);
    Outcome(db, screen)
  }

  /** A trace without calls of some kind selects nothing of that kind. */
  lemma {:induction false} OnlyNone(effects: seq<Effect>, kind: Kind)
    requires forall k :: 0 <= k < |effects| ==> KindOf(effects[k]) != kind
    ensures Only(effects, kind) == []
  {
    if effects != [] {
      OnlyNone(effects[1..], kind);
    }
  }

  /**
   * Lines 108-138 for a user who is neither banned, the admin, nor approved:
   * the notice, then, unless already pending, the push onto `pending`, the save
   * and the notification.
   */
  function RestrictedOutcome(cfg: Config, db: UserDB, chatId: int, from: User): (r: Outcome)
    ensures r.db == if Listed(db.pending, from.id) then db else db.(pending := db.pending + [Num(from.id)])
    ensures r.db == db <==> Listed(db.pending, from.id)
    // The notice, then the save of the new registry, then the notification, in that order.
    ensures Listed(db.pending, from.id) ==> r.effects == [RestrictedReply(cfg, chatId, from)]
    ensures !Listed(db.pending, from.id) ==>
              r.effects == [RestrictedReply(cfg, chatId, from), SaveDB(r.db),
                            NotifyAdmin(from.id, DisplayName(from.username), false)]
  {
    var reply := RestrictedReply(cfg, chatId, from);
    if Listed(db.pending, from.id) then
      Outcome(db, [reply])
    else
      var db' := db.(pending := db.pending + [Num(from.id)]);
      assert db' != db by {
        assert |db'.pending| == |db.pending| + 1;
      }
      Outcome(db', [reply, SaveDB(db'), NotifyAdmin(from.id, DisplayName(from.username), false)])
  }

  /** The restricted branch calls the transport once, with the notice. */
  lemma RestrictedTransport(cfg: Config, db: UserDB, chatId: int, from: User)
    ensures Only(RestrictedOutcome(cfg, db, chatId, from).effects, Transport) == [RestrictedReply(cfg, chatId, from)]
  {
    var r := RestrictedOutcome(cfg, db, chatId, from);
    if !Listed(db.pending, from.id) {
      OnlyOfThree(r.effects[0], r.effects[1], r.effects[2], Transport);
    }
  }

  /** The restricted branch saves the new registry once exactly when the user was not pending. */
  lemma RestrictedSave(cfg: Config, db: UserDB, chatId: int, from: User)
    ensures Only(RestrictedOutcome(cfg, db, chatId, from).effects, Persist) ==
              if Listed(db.pending, from.id) then [] else [SaveDB(RestrictedOutcome(cfg, db, chatId, from).db)]
  {
    var r := RestrictedOutcome(cfg, db, chatId, from);
    if !Listed(db.pending, from.id) {
      OnlyOfThree(r.effects[0], r.effects[1], r.effects[2], Persist);
    }
  }

  /** The restricted branch notifies the administrator once exactly when the user was not pending. */
  lemma RestrictedNotify(cfg: Config, db: UserDB, chatId: int, from: User)
    ensures Only(RestrictedOutcome(cfg, db, chatId, from).effects, Notify) ==
              if Listed(db.pending, from.id) then [] else [NotifyAdmin(from.id, DisplayName(from.username), false)]
  {
    var r := RestrictedOutcome(cfg, db, chatId, from);
    if !Listed(db.pending, from.id) {
      OnlyOfThree(r.effects[0], r.effects[1], r.effects[2], Notify);
    }
  }

  /** The gate's answer to a banned user. */
  lemma RespondBanned(cfg: Config, db: UserDB, chatId: int, from: User,
                      callbackId: Option<string>, messageId: Option<int>)
    requires Listed(db.banned, from.id)
    ensures Respond(cfg, db, chatId, from, callbackId, messageId)
            == Outcome(db, [SendMessage(chatId, BanNotice, PlainText, None)])
  {
  }

  /** The gate's answer to the admin or an approved user who is not banned. */
  lemma RespondPrivileged(cfg: Config, db: UserDB, chatId: int, from: User,
                          callbackId: Option<string>, messageId: Option<int>)
    requires !Listed(db.banned, from.id) && (IsAdmin(cfg, from.id) || Listed(db.approved, from.id))
    ensures Respond(cfg, db, chatId, from, callbackId, messageId)
            == Outcome(db, ShowScreen(chatId,
                                      if IsAdmin(cfg, from.id) then AdminWelcome
                                      else UserWelcome(Escape.Escape(DisplayName(from.username))),
                                      if IsAdmin(cfg, from.id) then AdminKeyboard else MemberKeyboard,
                                      callbackId, messageId))
  {
  }

  /** The gate's answer to a restricted user. */
  lemma RespondRestricted(cfg: Config, db: UserDB, chatId: int, from: User,
                          callbackId: Option<string>, messageId: Option<int>)
    requires !Listed(db.banned, from.id) && !IsAdmin(cfg, from.id) && !Listed(db.approved, from.id)
    ensures Respond(cfg, db, chatId, from, callbackId, messageId) == RestrictedOutcome(cfg, db, chatId, from)
  {
  }

  /**
   * `handleStart`, step by step: the three membership tests, the ban check,
   * the privileged branch, then the restricted branch with its conditional push
   * onto the loaded `pending` list, `saveDB` and `notifyAdmin`.
   */
  method HandleStart(cfg: Config, db: UserDB, chatId: int, from: User,
                     callbackId: Option<string>, messageId: Option<int>)
    returns (db': UserDB, trace: seq<Effect>)
    ensures Outcome(db', trace) == Respond(cfg, db, chatId, from, callbackId, messageId)
  {
    var uid := from.id;
    var username := DisplayName(from.username);
    var cleanUsername := Escape.Escape(username);
    var isAdmin := IsAdmin(cfg, uid);

    var userDB := db;

    var isApproved := Listed(userDB.approved, uid);
    var isBanned := Listed(userDB.banned, uid);
    var isPending := Listed(userDB.pending, uid);
    trace := [];

    if isBanned {
      trace := trace + [SendMessage(chatId, BanNotice, PlainText, None)];
      RespondBanned(cfg, db, chatId, from, callbackId, messageId);
      return userDB, trace;
    }

    if isAdmin || isApproved {
      var message := if isAdmin then AdminWelcome else UserWelcome(cleanUsername);
      var buttons := if isAdmin then AdminKeyboard else MemberKeyboard;
      if EditsInPlace(callbackId, messageId) {
        trace := trace + [AnswerCallbackQuery(callbackId.value)];
        trace := trace + [EditMessageText(chatId, messageId.value, message, Markdown, buttons)];
      } else {
        trace := trace + [SendMessage(chatId, message, Markdown, Some(buttons))];
      }
      assert trace == ShowScreen(chatId, message, buttons, callbackId, messageId);
      RespondPrivileged(cfg, db, chatId, from, callbackId, messageId);
      return userDB, trace;
    }

    var restrictedMsg := RestrictedNotice(cleanUsername, uid, username, cfg.adminUsername);
    trace := trace + [SendMessage(chatId, restrictedMsg, Markdown, None)];

    if !isPending {
      userDB := userDB.(pending := userDB.pending + [Num(uid)]);
      trace := trace + [SaveDB(userDB)];
      trace := trace + [NotifyAdmin(uid, username, false)];
    }
    RespondRestricted(cfg, db, chatId, from, callbackId, messageId);
    db' := userDB;
  }

  // ---------------------------------------------------------------------------
  // The two entry points (lines 7-20)
  // ---------------------------------------------------------------------------

  /** How an entry point ends: it ran the gate, it ignored the update, or it threw a TypeError. */
  datatype Status = Handled | Ignored | Threw

  /** A `/start` message: `msg.chat.id` and `msg.from` (absent for channel posts). */
  datatype Message = Message(chatId: int, from: Option<User>)

  /** The message a pressed button belongs to: `query.message.chat.id` and `query.message.message_id`. */
  datatype CallbackMessage = CallbackMessage(chatId: int, messageId: int)

  /**
   * A `callback_query` update: `query.id`, `query.from`, `query.message` (absent
   * for buttons on inline messages) and `query.data` (absent for game buttons).
   */
  datatype CallbackQuery = CallbackQuery(id: string, from: User, message: Option<CallbackMessage>, data: Option<string>)

  /** The `/start` handler (lines 7-9): the gate with no callback and no message id, so never an edit. */
  method OnStartCommand(cfg: Config, db: UserDB, msg: Message)
    returns (status: Status, db': UserDB, trace: seq<Effect>)
    ensures status == Threw <==> msg.from.None?
    ensures status != Ignored
    ensures msg.from.None? ==> db' == db && trace == []
    ensures msg.from.Some? ==> Outcome(db', trace) == Respond(cfg, db, msg.chatId, msg.from.value, None, None)
    ensures forall e :: e in trace ==> !e.AnswerCallbackQuery? && !e.EditMessageText?
  {
    if msg.from.None? {
      // `from.id` at line 24 throws before anything is loaded or sent.
      return Threw, db, [];
    }
    db', trace := HandleStart(cfg, db, msg.chatId, msg.from.value, None, None);
    status := Handled;
  }

  /**
   * The `callback_query` handler (lines 12-20): reading `query.message.chat.id`
   * throws when the message is absent; otherwise only the data "back" runs the
   * gate, with the query id and the message id, and any other data does nothing.
   */
  method OnCallbackQuery(cfg: Config, db: UserDB, query: CallbackQuery)
    returns (status: Status, db': UserDB, trace: seq<Effect>)
    ensures status == Threw <==> query.message.None?
    ensures status == Handled <==> query.message.Some? && query.data == Some("back")
    ensures status != Handled ==> db' == db && trace == []
    ensures status == Handled ==>
              Outcome(db', trace) == Respond(cfg, db, query.message.value.chatId, query.from,
                                             Some(query.id), Some(query.message.value.messageId))
  {
    if query.message.None? {
      return Threw, db, [];
    }
    var chatId := query.message.value.chatId;
    if query.data == Some("back") {
      db', trace := HandleStart(cfg, db, chatId, query.from, Some(query.id), Some(query.message.value.messageId));
      status := Handled;
    } else {
      status, db', trace := Ignored, db, [];
    }
  }

  // ---------------------------------------------------------------------------
  // Properties across events
  // ---------------------------------------------------------------------------

  /** `k` copies of one call. */
  function Copies(e: Effect, k: nat): (r: seq<Effect>)
    ensures |r| == k
  {
    if k == 0 then [] else [e] + Copies(e, k - 1)
  }

  /**
   * The same event delivered `k` times, each run loading the registry the
   * previous run saved; the traces are concatenated.
   */
  function Repeat(cfg: Config, db: UserDB, chatId: int, from: User,
                  callbackId: Option<string>, messageId: Option<int>, k: nat): Outcome
    decreases k
  {
    if k == 0 then Outcome(db, [])
    else
      var first := Respond(cfg, db, chatId, from, callbackId, messageId);
      var rest := Repeat(cfg, first.db, chatId, from, callbackId, messageId, k - 1);
      Outcome(rest.db, first.effects + rest.effects)
  }

  /** Once pending, a restricted user's every later start just repeats the notice. */
  lemma {:induction false} RepeatWhilePending(cfg: Config, db: UserDB, chatId: int, from: User,
                                              callbackId: Option<string>, messageId: Option<int>, k: nat)
    requires Classify(cfg, db, from.id) == Restricted && Listed(db.pending, from.id)
    ensures Repeat(cfg, db, chatId, from, callbackId, messageId, k)
            == Outcome(db, Copies(RestrictedReply(cfg, chatId, from), k))
    decreases k
  {
    if k > 0 {
      var reply := RestrictedReply(cfg, chatId, from);
      assert Respond(cfg, db, chatId, from, callbackId, messageId) == Outcome(db, [reply]);
      RepeatWhilePending(cfg, db, chatId, from, callbackId, messageId, k - 1);
    }
  }

  /** Copies of a transport call select to themselves as transport calls, and to nothing else. */
  lemma {:induction false} OnlyCopies(e: Effect, k: nat, kind: Kind)
    ensures Only(Copies(e, k), kind) == if KindOf(e) == kind then Copies(e, k) else []
    decreases k
  {
    if k > 0 {
      var c := Copies(e, k);
      assert c[0] == e && c[1..] == Copies(e, k - 1);
      OnlyCopies(e, k - 1, kind);
    }
  }

  /**
   * Adding to `pending` is idempotent: however often a restricted user starts
   * the bot, every start after the first only repeats the restricted notice,
   * so the registry is saved, and the administrator notified, at most once.
   */
  lemma RepeatedRestrictedStart(cfg: Config, db: UserDB, chatId: int, from: User,
                                callbackId: Option<string>, messageId: Option<int>, k: nat)
    requires 1 <= k
    requires Classify(cfg, db, from.id) == Restricted
    ensures Repeat(cfg, db, chatId, from, callbackId, messageId, k)
            == Outcome(Respond(cfg, db, chatId, from, callbackId, messageId).db,
                       Respond(cfg, db, chatId, from, callbackId, messageId).effects
                       + Copies(RestrictedReply(cfg, chatId, from), k - 1))
  {
    var uid := from.id;
    var first := Respond(cfg, db, chatId, from, callbackId, messageId);
    ListedAppend(db.pending, Num(uid), uid);
    assert Listed(first.db.pending, uid);
    assert Classify(cfg, first.db, uid) == Restricted;
    RepeatWhilePending(cfg, first.db, chatId, from, callbackId, messageId, k - 1);
  }

  /** Over the repeated starts, the registry is saved once if the user was not pending, and never otherwise. */
  lemma RepeatedStartSavesOnce(cfg: Config, db: UserDB, chatId: int, from: User,
                               callbackId: Option<string>, messageId: Option<int>, k: nat)
    requires 1 <= k
    requires Classify(cfg, db, from.id) == Restricted
    ensures Only(Repeat(cfg, db, chatId, from, callbackId, messageId, k).effects, Persist) ==
              if Listed(db.pending, from.id) then [] else [SaveDB(db.(pending := db.pending + [Num(from.id)]))]
  {
    var first := Respond(cfg, db, chatId, from, callbackId, messageId);
    var reply := RestrictedReply(cfg, chatId, from);
    calc {
      Only(Repeat(cfg, db, chatId, from, callbackId, messageId, k).effects, Persist);
      == { RepeatedRestrictedStart(cfg, db, chatId, from, callbackId, messageId, k); }
      Only(first.effects + Copies(reply, k - 1), Persist);
      == { OnlyThenCopies(first.effects, reply, k - 1, Persist); }
      Only(first.effects, Persist);
    }
  }

  /** Over the repeated starts, the administrator is notified once if the user was not pending, and never otherwise. */
  lemma RepeatedStartNotifiesOnce(cfg: Config, db: UserDB, chatId: int, from: User,
                                  callbackId: Option<string>, messageId: Option<int>, k: nat)
    requires 1 <= k
    requires Classify(cfg, db, from.id) == Restricted
    ensures Only(Repeat(cfg, db, chatId, from, callbackId, messageId, k).effects, Notify) ==
              if Listed(db.pending, from.id) then [] else [NotifyAdmin(from.id, DisplayName(from.username), false)]
  {
    var first := Respond(cfg, db, chatId, from, callbackId, messageId);
    var reply := RestrictedReply(cfg, chatId, from);
    calc {
      Only(Repeat(cfg, db, chatId, from, callbackId, messageId, k).effects, Notify);
      == { RepeatedRestrictedStart(cfg, db, chatId, from, callbackId, messageId, k); }
      Only(first.effects + Copies(reply, k - 1), Notify);
      == { OnlyThenCopies(first.effects, reply, k - 1, Notify); }
      Only(first.effects, Notify);
    }
  }

  /** Every one of the repeated starts sends the restricted notice, and nothing else goes to the transport. */
  lemma RepeatedStartNotices(cfg: Config, db: UserDB, chatId: int, from: User,
                             callbackId: Option<string>, messageId: Option<int>, k: nat)
    requires 1 <= k
    requires Classify(cfg, db, from.id) == Restricted
    ensures Only(Repeat(cfg, db, chatId, from, callbackId, messageId, k).effects, Transport) ==
              Copies(RestrictedReply(cfg, chatId, from), k)
  {
    var first := Respond(cfg, db, chatId, from, callbackId, messageId);
    var reply := RestrictedReply(cfg, chatId, from);
    calc {
      Only(Repeat(cfg, db, chatId, from, callbackId, messageId, k).effects, Transport);
      == { RepeatedRestrictedStart(cfg, db, chatId, from, callbackId, messageId, k); }
      Only(first.effects + Copies(reply, k - 1), Transport);
      == { OnlyThenCopies(first.effects, reply, k - 1, Transport); }
      Only(first.effects, Transport) + Copies(reply, k - 1);
      == { assert Only(first.effects, Transport) == [reply]; }
      [reply] + Copies(reply, k - 1);
      Copies(reply, k);
    }
  }

  /** Appending copies of a transport call adds them to the transport calls and to nothing else. */
  lemma OnlyThenCopies(effects: seq<Effect>, e: Effect, k: nat, kind: Kind)
    requires KindOf(e) == Transport
    ensures kind != Transport ==> Only(effects + Copies(e, k), kind) == Only(effects, kind)
    ensures kind == Transport ==> Only(effects + Copies(e, k), kind) == Only(effects, kind) + Copies(e, k)
  {
    OnlyAppend(effects, Copies(e, k), kind);
    OnlyCopies(e, k, kind);
    assert Only(effects, kind) + [] == Only(effects, kind);
  }

  /**
   * An approved user named "a_b*c" is welcomed as "a_b*c": the escape of line 26
   * leaves underscores and asterisks alone.
   */
  lemma WelcomeKeepsUnderscores(cfg: Config, db: UserDB, chatId: int, uid: int)
    requires Classify(cfg, db, uid) == Approved
    ensures Respond(cfg, db, chatId, User(uid, Some("a_b*c")), None, None).effects
            == [SendMessage(chatId, UserWelcome("a_b*c"), Markdown, Some(MemberKeyboard))]
  {
    Escape.EscapeKeepsUnderscores();
  }
}
