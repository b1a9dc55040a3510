/**
  The Telegram bot's helpers: the MarkdownV2 escaper applied to user data,
  and the access gate that wraps every command (run it for authorised
  users, otherwise forward an access request to the administrator).
  Telegram itself is abstracted: a send succeeds when the network is up and
  the text passes the MarkdownV2 check modelled by `MarkdownV2Accepts`.
 */
module Bot {
  import opened Wrappers
  import opened Text
  import opened Python

  // ---------------------------------------------------------------------
  // Escaping
  // ---------------------------------------------------------------------

  /** The characters `escape_markdown` prefixes with a backslash. */
  const MarkdownSpecials: set<char> :=
    {'_', '*', '[', ']', '(', ')', '~', '`', '>', '#', '+', '-', '=', '|', '{', '}', '.', '!'}

  /** Prefix every character of `reserved` in `s` with a backslash; copy the others. */
  function EscapeChars(s: string, reserved: set<char>): (r: string)
    ensures |r| == |s| + CountIn(s, reserved)
  {
    if |s| == 0 then []
    else (if s[0] in reserved then ['\\', s[0]] else [s[0]]) + EscapeChars(s[1..], reserved)
  }

  /** The number of characters of `s` that belong to `reserved`. */
  function CountIn(s: string, reserved: set<char>): nat {
    if |s| == 0 then 0 else (if s[0] in reserved then 1 else 0) + CountIn(s[1..], reserved)
  }

  /** Drop the backslash in front of every reserved character. */
  function UnescapeChars(t: string, reserved: set<char>): string {
    if |t| == 0 then []
    else if |t| >= 2 && t[0] == '\\' && t[1] in reserved then [t[1]] + UnescapeChars(t[2..], reserved)
    else [t[0]] + UnescapeChars(t[1..], reserved)
  }

  /** `escape_markdown`: a non-string gives the empty string; text gets every special character escaped. */
  function EscapeMarkdown(v: Value): (r: string)
    ensures !v.Str? ==> r == ""
    ensures v.Str? ==> |r| == |v.s| + CountIn(v.s, MarkdownSpecials)
  {
    if v.Str? then EscapeChars(v.s, MarkdownSpecials) else ""
  }

  /** Escaping works character by character: it distributes over concatenation. */
  lemma {:induction false} EscapeAppend(a: string, b: string, reserved: set<char>)
    ensures EscapeChars(a + b, reserved) == EscapeChars(a, reserved) + EscapeChars(b, reserved)
  {
    if |a| > 0 {
      assert (a + b)[1..] == a[1..] + b;
      EscapeAppend(a[1..], b, reserved);
    } else {
      assert a + b == b;
    }
  }

  /** A single character: one backslash in front of a reserved character, none otherwise. */
  lemma EscapeOne(c: char, reserved: set<char>)
    ensures EscapeChars([c], reserved) == if c in reserved then ['\\', c] else [c]
  {
    assert [c][1..] == [];
  }

  /** Text without reserved characters is returned unchanged. */
  lemma {:induction false} EscapeKeepsPlainText(s: string, reserved: set<char>)
    requires forall i :: 0 <= i < |s| ==> s[i] !in reserved
    ensures EscapeChars(s, reserved) == s
  {
    if |s| > 0 {
      EscapeKeepsPlainText(s[1..], reserved);
    }
  }

  /** When the backslash is not itself reserved, escaped text never starts with a reserved character. */
  lemma EscapedHead(s: string, reserved: set<char>)
    requires '\\' !in reserved
    requires |s| > 0
    ensures EscapeChars(s, reserved)[0] !in reserved
  {
  }

  /** Removing the inserted backslashes recovers the input, whatever the reserved set. */
  lemma {:induction false} UnescapeEscape(s: string, reserved: set<char>)
    ensures UnescapeChars(EscapeChars(s, reserved), reserved) == s
  {
    if |s| > 0 {
      var rest := EscapeChars(s[1..], reserved);
      UnescapeEscape(s[1..], reserved);
      if s[0] in reserved {
        var t := ['\\', s[0]] + rest;
        assert t[2..] == rest;
      } else {
        var t := [s[0]] + rest;
        assert t[1..] == rest;
        if s[0] == '\\' && |rest| > 0 {
          EscapedHead(s[1..], reserved);
        }
      }
    }
  }

  /** `escape_markdown` loses nothing: the escaped text determines the original. */
  lemma EscapeMarkdownInjective(a: string, b: string)
    requires EscapeMarkdown(Str(a)) == EscapeMarkdown(Str(b))
    ensures a == b
  {
    UnescapeEscape(a, MarkdownSpecials);
    UnescapeEscape(b, MarkdownSpecials);
  }

  // ---------------------------------------------------------------------
  // What Telegram's MarkdownV2 parser accepts
  // ---------------------------------------------------------------------

  /**
    Characters that mark no entity and must therefore be escaped everywhere
    outside code spans (the "MarkdownV2 style" rules of the Telegram Bot API).
   */
  predicate PlainReserved(c: char) {
    c == '#' || c == '+' || c == '-' || c == '=' || c == '{' || c == '}' || c == '.' || c == '!'
  }

  /** Where the parser stands: inside a code span or not, and whether the previous character was an escaping backslash. */
  datatype ScanState = ScanState(inCode: bool, escaped: bool)

  const Clean := ScanState(false, false)

  /** One character: an escaped character is literal; a backslash escapes; a backtick toggles code; a bare plain-reserved character outside code is refused. */
  function Step(st: ScanState, c: char): Option<ScanState> {
    if st.escaped then Some(ScanState(st.inCode, false))
    else if c == '\\' then Some(ScanState(st.inCode, true))
    else if c == '`' then Some(ScanState(!st.inCode, false))
    else if !st.inCode && PlainReserved(c) then None
    else Some(st)
  }

  /** The parser run over a text: the final state, or `None` if a character is refused. */
  function Scan(t: string, st: ScanState): Option<ScanState> {
    if |t| == 0 then Some(st)
    else match Step(st, t[0])
      case None => None
      case Some(next) => Scan(t[1..], next)
  }

  /**
    A necessary condition for Telegram to accept a MarkdownV2 message: no
    plain-reserved character stands unescaped outside a code span. (Entity
    nesting and closing are not checked.)
   */
  predicate MarkdownV2Accepts(t: string) {
    Scan(t, Clean).Some?
  }

  /** Every plain-reserved character is one the escaper handles. */
  lemma ReservedAreSpecial(c: char)
    ensures PlainReserved(c) ==> c in MarkdownSpecials && c in FullSpecials
  {
  }

  /** Scanning a concatenation scans the second part from where the first part stopped. */
  lemma {:induction false} ScanAppend(a: string, b: string, st: ScanState)
    ensures Scan(a + b, st) == if Scan(a, st).None? then None else Scan(b, Scan(a, st).value)
  {
    if |a| > 0 {
      assert (a + b)[1..] == a[1..] + b;
      if Step(st, a[0]).Some? {
        ScanAppend(a[1..], b, Step(st, a[0]).value);
      }
    } else {
      assert a + b == b;
    }
  }

  /** Characters with no markup role at all. */
  predicate Inert(s: string) {
    forall i :: 0 <= i < |s| ==> s[i] != '\\' && s[i] != '`' && !PlainReserved(s[i])
  }

  /** Inert text leaves an unescaped state as it was. */
  lemma {:induction false} ScanInert(s: string, inCode: bool)
    requires Inert(s)
    ensures Scan(s, ScanState(inCode, false)) == Some(ScanState(inCode, false))
  {
    if |s| > 0 {
      ScanInert(s[1..], inCode);
    }
  }

  /** The escaper with the backslash added to the specials, as MarkdownV2 requires. */
  const FullSpecials: set<char> := MarkdownSpecials + {'\\'}

  /** Text escaped with the full set scans cleanly outside code, whatever it contains. */
  lemma {:induction false} FullyEscapedIsAccepted(s: string)
    ensures Scan(EscapeChars(s, FullSpecials), Clean) == Some(Clean)
  {
    if |s| > 0 {
      var head := if s[0] in FullSpecials then ['\\', s[0]] else [s[0]];
      ReservedAreSpecial(s[0]);
      ScanAppend(head, EscapeChars(s[1..], FullSpecials), Clean);
      FullyEscapedIsAccepted(s[1..]);
      if s[0] in FullSpecials {
        assert head[1..] == [s[0]];
      } else {
        assert head[1..] == [];
      }
    }
  }

  /**
    `escape_markdown` leaves the backslash alone, so a backslash in the
    input swallows the escape of the next special character: a name `\.`
    still yields a bare `.`.
   */
  lemma BackslashDefeatsEscape()
    ensures EscapeMarkdown(Str("\\.")) == "\\\\."
    ensures !MarkdownV2Accepts(EscapeMarkdown(Str("\\.")))
  {
    assert "\\." == ['\\'] + ['.'];
    EscapeAppend(['\\'], ['.'], MarkdownSpecials);
    EscapeOne('\\', MarkdownSpecials);
    EscapeOne('.', MarkdownSpecials);
    assert EscapeMarkdown(Str("\\.")) == ['\\'] + ['\\', '.'];
    EscapedBackslashThenBareDot();
  }

  lemma EscapedBackslashThenBareDot()
    ensures Scan(['\\'] + ['\\', '.'], Clean) == None
  {
    var t := ['\\'] + ['\\', '.'];
    assert t == ['\\', '\\'] + ['.'];
    ScanThrough(['\\', '\\'], ['.'], Clean, Clean) by {
      assert ['\\', '\\'][1..] == ['\\'];
      assert ['\\'][1..] == [];
    }
    assert ['.'][1..] == [];
  }

  // ---------------------------------------------------------------------
  // The access request sent to the administrator
  // ---------------------------------------------------------------------

  /** The Telegram user behind an update; names may be missing. */
  datatype User = User(id: int, firstName: Value, username: Value)

  datatype Button = Button(caption: string, callbackData: string)

  /** A message delivered to the administrator's chat. */
  datatype AdminMessage = AdminMessage(chatId: int, text: string, buttons: seq<Button>)

  const ApprovePrefix := "admin_approve_"
  const DenyPrefix := "admin_deny_"

  /** The approve and deny buttons, whose callback data carry the user id. */
  function RequestButtons(id: int): (bs: seq<Button>)
    ensures |bs| == 2
    ensures StartsWith(bs[0].callbackData, ApprovePrefix) && StartsWith(bs[1].callbackData, DenyPrefix)
  {
    [Button("\U{2705} Aprobar", ApprovePrefix + IntToString(id)),
     Button("\U{274C} Denegar", DenyPrefix + IntToString(id))]
  }

  /** The callback data name the user: what follows the prefix parses back to the id. */
  lemma CallbackCarriesId(id: int)
    ensures ParseInt(RequestButtons(id)[0].callbackData[|ApprovePrefix|..]) == Some(id)
    ensures ParseInt(RequestButtons(id)[1].callbackData[|DenyPrefix|..]) == Some(id)
  {
    var bs := RequestButtons(id);
    assert bs[0].callbackData[|ApprovePrefix|..] == IntToString(id);
    assert bs[1].callbackData[|DenyPrefix|..] == IntToString(id);
    ParseIntRoundTrip(id);
  }

  /** The username shown: the handle when it is truthy, `N/A` otherwise. */
  function ShownUsername(u: User): Value {
    if Truthy(u.username) then u.username else Str("N/A")
  }

  const Header := "\U{1F514} *Solicitud de Acceso Nueva* \U{1F514}\n\n*"

  /**
    The request text: a bold header, then the name, the `@` handle and the
    id in a code span, each on a bullet line introduced by `bullet`.
   */
  function Notice(bullet: string, name: string, handle: string, id: string): string {
    // Right-nested on purpose: each piece is scanned in turn, which keeps the scanning proofs small.
    Header + (bullet + (" Nombre:* " + (name + ("\n*" + (bullet + (" Username:* @" + (handle
      + ("\n*" + (bullet + (" ID:* `" + (id + "`")))))))))))
  }

  /** The access request as written: the `-` of each bullet is left unescaped. */
  function AccessRequestAsWritten(u: User): string {
    Notice("-", EscapeMarkdown(u.firstName), EscapeMarkdown(ShownUsername(u)), IntToString(u.id))
  }

  /** A value escaped with the full set of MarkdownV2 specials; non-strings give the empty string. */
  function EscapeFull(v: Value): (r: string)
    ensures v.Str? ==> UnescapeChars(r, FullSpecials) == v.s
  {
    if v.Str? then UnescapeEscape(v.s, FullSpecials); EscapeChars(v.s, FullSpecials) else ""
  }

  /** The access request as intended: bullets escaped, user data escaped with the backslash included. */
  function AccessRequest(u: User): string {
    Notice("\\-", EscapeFull(u.firstName), EscapeFull(ShownUsername(u)), IntToString(u.id))
  }

  lemma HeaderInert()
    ensures Inert(Header)
  {
  }

  /** Any text that continues the header with a bare `-` is refused. */
  lemma BareBulletRefused(rest: string)
    ensures !MarkdownV2Accepts(Header + ("-" + rest))
  {
    HeaderScans();
    ScanThrough(Header, "-" + rest, Clean, Clean);
    BareDashRefused(rest);
  }

  lemma BareDashRefused(rest: string)
    ensures Scan("-" + rest, Clean) == None
  {
    assert ("-" + rest)[0] == '-';
  }

  lemma HeaderScans()
    ensures Scan(Header, Clean) == Some(Clean)
  {
    HeaderInert();
    ScanInert(Header, false);
  }

  /** Telegram refuses the request as written for every user: a bare `-` follows the header. */
  lemma AsWrittenRequestRefused(u: User)
    ensures !MarkdownV2Accepts(AccessRequestAsWritten(u))
  {
    var name, handle, id := EscapeMarkdown(u.firstName), EscapeMarkdown(ShownUsername(u)), IntToString(u.id);
    BareBulletRefused(" Nombre:* " + (name + ("\n*" + ("-" + (" Username:* @" + (handle
      + ("\n*" + ("-" + (" ID:* `" + (id + "`"))))))))));
  }

  /** Scanning past a part whose end state is known. */
  lemma ScanThrough(a: string, b: string, st: ScanState, mid: ScanState)
    requires Scan(a, st) == Some(mid)
    ensures Scan(a + b, st) == Scan(b, mid)
  {
    ScanAppend(a, b, st);
  }

  /** Inside a code span only the backslash and the backtick matter. */
  lemma {:induction false} ScanCode(s: string)
    requires forall i :: 0 <= i < |s| ==> s[i] != '\\' && s[i] != '`'
    ensures Scan(s, ScanState(true, false)) == Some(ScanState(true, false))
  {
    if |s| > 0 {
      ScanCode(s[1..]);
    }
  }

  lemma EscapedBulletScans()
    ensures Scan("\\-", Clean) == Some(Clean)
  {
    assert "\\-"[1..] == "-";
    assert "-"[1..] == [];
  }

  lemma CodeSpanScans(id: string)
    requires forall i :: 0 <= i < |id| ==> id[i] != '\\' && id[i] != '`'
    ensures Scan("`" + (id + "`"), Clean) == Some(Clean)
  {
    ScanCode(id);
    assert ("`" + (id + "`"))[1..] == id + "`";
    ScanThrough(id, "`", ScanState(true, false), ScanState(true, false));
    assert "`"[1..] == [];
  }

  lemma InertPieces()
    ensures Inert(" Nombre:* ") && Inert("\n*") && Inert(" Username:* @") && Inert(" ID:* ")
  {
  }

  /** The template with escaped bullets is accepted whenever its parts scan cleanly. */
  lemma NoticeAccepted(name: string, handle: string, id: string)
    requires Scan(name, Clean) == Some(Clean)
    requires Scan(handle, Clean) == Some(Clean)
    requires forall i :: 0 <= i < |id| ==> id[i] != '\\' && id[i] != '`'
    ensures MarkdownV2Accepts(Notice("\\-", name, handle, id))
  {
    var b := "\\-";
    var t9 := " ID:* " + ("`" + (id + "`"));
    var t8 := b + t9;
    var t7 := "\n*" + t8;
    var t6 := handle + t7;
    var t5 := " Username:* @" + t6;
    var t4 := b + t5;
    var t3 := "\n*" + t4;
    var t2 := name + t3;
    var t1 := " Nombre:* " + t2;
    var t0 := b + t1;
    assert " ID:* `" + (id + "`") == t9;
    assert Notice(b, name, handle, id) == Header + t0;
    HeaderScans();
    InertPieces();
    EscapedBulletScans();
    CodeSpanScans(id);
    ScanInert(" Nombre:* ", false);
    ScanInert("\n*", false);
    ScanInert(" Username:* @", false);
    ScanInert(" ID:* ", false);
    ScanThrough(Header, t0, Clean, Clean);
    ScanThrough(b, t1, Clean, Clean);
    ScanThrough(" Nombre:* ", t2, Clean, Clean);
    ScanThrough(name, t3, Clean, Clean);
    ScanThrough("\n*", t4, Clean, Clean);
    ScanThrough(b, t5, Clean, Clean);
    ScanThrough(" Username:* @", t6, Clean, Clean);
    ScanThrough(handle, t7, Clean, Clean);
    ScanThrough("\n*", t8, Clean, Clean);
    ScanThrough(b, t9, Clean, Clean);
    ScanThrough(" ID:* ", "`" + (id + "`"), Clean, Clean);
  }

  /** An integer's decimal text has neither a backslash nor a backtick. */
  lemma IntTextHasNoCodeMarks(i: int)
    ensures forall k :: 0 <= k < |IntToString(i)| ==> IntToString(i)[k] != '\\' && IntToString(i)[k] != '`'
  {
    if i < 0 {
      var d := NatToString(-i);
      assert forall k :: 1 <= k < |IntToString(i)| ==> IntToString(i)[k] == d[k - 1];
    }
  }

  /** The corrected request is accepted for every user, whatever their name and handle contain. */
  lemma RequestAccepted(u: User)
    ensures MarkdownV2Accepts(AccessRequest(u))
  {
    if u.firstName.Str? { FullyEscapedIsAccepted(u.firstName.s); }
    if ShownUsername(u).Str? { FullyEscapedIsAccepted(ShownUsername(u).s); }
    IntTextHasNoCodeMarks(u.id);
    NoticeAccepted(EscapeFull(u.firstName), EscapeFull(ShownUsername(u)), IntToString(u.id));
  }

  // ---------------------------------------------------------------------
  // The access gate around every command
  // ---------------------------------------------------------------------

  /** Reading the authorised set: its contents, or a database error. */
  datatype Lookup = LookupOk(ids: set<int>) | LookupFailed

  /** How the wrapped command ended. */
  datatype CommandOutcome = Completed | Raised

  /** What the gate did: whether the command ran, the reply the user got from the gate, the message the administrator got. */
  datatype GateResult = GateResult(commandRan: bool, reply: Option<string>, adminMessage: Option<AdminMessage>)

  const VerificationErrorReply := "Error al verificar tu autorización. Contacta al administrador."
  const ForwardedReply := "Tu solicitud de acceso ha sido enviada al administrador para su revisión."
  const ContactAdminReply := "No se pudo procesar tu solicitud. Por favor, contacta al administrador directamente."

  /**
    The decision of the wrapper for a given request text: an authorised user
    runs the command (an error it raises is reported as a verification
    error); a failed lookup is reported the same way; anyone else gets the
    request forwarded when the send succeeds, or is told to contact the
    administrator when it does not.
   */
  function Gate(adminId: int, u: User, lookup: Lookup, command: CommandOutcome, networkUp: bool, notice: string): (g: GateResult)
    ensures g.commandRan <==> lookup.LookupOk? && u.id in lookup.ids
    ensures g.commandRan ==> g.adminMessage.None?
    ensures g.commandRan ==> g.reply == (if command.Raised? then Some(VerificationErrorReply) else None)
    ensures lookup.LookupFailed? ==> g == GateResult(false, Some(VerificationErrorReply), None)
    ensures g.adminMessage.Some? <==> lookup.LookupOk? && u.id !in lookup.ids && networkUp && MarkdownV2Accepts(notice)
    ensures g.adminMessage.Some? ==> g.adminMessage.value == AdminMessage(adminId, notice, RequestButtons(u.id))
    ensures !g.commandRan && lookup.LookupOk? ==> g.reply == Some(if g.adminMessage.Some? then ForwardedReply else ContactAdminReply)
  {
    match lookup
    case LookupFailed => GateResult(false, Some(VerificationErrorReply), None)
    case LookupOk(ids) =>
      if u.id in ids then
        if command.Completed? then GateResult(true, None, None)
        else GateResult(true, Some(VerificationErrorReply), None)
      else if networkUp && MarkdownV2Accepts(notice) then
        GateResult(false, Some(ForwardedReply), Some(AdminMessage(adminId, notice, RequestButtons(u.id))))
      else GateResult(false, Some(ContactAdminReply), None)
  }

  /**
    The wrapper as written, sending the request with unescaped bullets: no
    request ever reaches the administrator, and it differs from the
    intended wrapper only for users outside the authorized set.
   */
  function RestrictedAsWritten(adminId: int, u: User, lookup: Lookup, command: CommandOutcome, networkUp: bool): (g: GateResult)
    ensures g.adminMessage.None?
    ensures !(lookup.LookupOk? && u.id !in lookup.ids) ==> g == Restricted(adminId, u, lookup, command, networkUp)
  {
    AsWrittenRequestRefused(u);
    Gate(adminId, u, lookup, command, networkUp, AccessRequestAsWritten(u))
  }

  /**
    The wrapper as intended, sending the corrected request: an unknown
    user's request reaches the administrator exactly when the network
    delivers it.
   */
  function Restricted(adminId: int, u: User, lookup: Lookup, command: CommandOutcome, networkUp: bool): (g: GateResult)
    ensures g.commandRan <==> lookup.LookupOk? && u.id in lookup.ids
    ensures g.adminMessage.Some? <==> lookup.LookupOk? && u.id !in lookup.ids && networkUp
    ensures g.adminMessage.Some? ==> g.adminMessage.value == AdminMessage(adminId, AccessRequest(u), RequestButtons(u.id))
  {
    RequestAccepted(u);
    Gate(adminId, u, lookup, command, networkUp, AccessRequest(u))
  }

  /** As written, no access request ever reaches the administrator, and every unknown user is told to contact them. */
  lemma AsWrittenNeverForwards(adminId: int, u: User, lookup: Lookup, command: CommandOutcome, networkUp: bool)
    ensures RestrictedAsWritten(adminId, u, lookup, command, networkUp).adminMessage.None?
    ensures lookup.LookupOk? && u.id !in lookup.ids ==>
      RestrictedAsWritten(adminId, u, lookup, command, networkUp).reply == Some(ContactAdminReply)
  {
    AsWrittenRequestRefused(u);
  }

  /** Corrected, an unknown user's request reaches the administrator exactly when the network does. */
  lemma RequestForwardedIffSent(adminId: int, u: User, ids: set<int>, command: CommandOutcome, networkUp: bool)
    requires u.id !in ids
    ensures var g := Restricted(adminId, u, LookupOk(ids), command, networkUp);
      && !g.commandRan
      && (g.adminMessage.Some? <==> networkUp)
      && (networkUp ==> g.adminMessage.value.chatId == adminId && g.reply == Some(ForwardedReply))
  {
    RequestAccepted(u);
  }
}
