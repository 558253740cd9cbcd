/**
 Page rendering and the outcomes of the `/profile` and `/no-subscription`
 routes. Templates are given as text; loading them from disk, the database
 and the identity provider are inputs (`Attempt` marks a step that may
 throw).

 Placeholders are filled one after the other (`{{displayName}}`, then
 `{{username}}`, then `{{tenantId}}`) with escaped values. The server passes
 the escaped value to `replace` as a string, which makes JavaScript expand
 `$` patterns in it (`FillAsWritten`, which the handlers use). `Fill` is the
 verbatim insertion the escaping is meant to guarantee; the two agree
 whenever the filled values hold no `$`.
 */
module Routes {
  import opened Text
  import opened JsString
  import opened Escape
  import opened Account

  const DisplayNameSlot: string := "{{displayName}}"
  const UsernameSlot: string := "{{username}}"
  const TenantIdSlot: string := "{{tenantId}}"

  /** An awaited step that either yields a value or throws. */
  datatype Attempt<+T> = Done(value: T) | Threw

  /** What a route sends: a 302 redirect or an HTML body with a status. */
  datatype Response = Redirect(location: string) | Html(status: nat, body: string)

  /** A route's response together with the tenant id it queried the database for, if any. */
  datatype Handled = Handled(response: Response, queriedTenant: Option<string>)

  /** Every occurrence of `slot` replaced by the escaped value, verbatim. */
  function Fill(html: string, slot: string, value: string): string
    requires |slot| > 0
  {
    ReplaceAll(html, slot, EscapeHtml(value))
  }

  /**
   `html.replace(/{{slot}}/g, escapeHtml(value))` as the server writes it.
   Without an occurrence of the slot the page is unchanged, and for a value
   without `$` it is the verbatim fill.
   */
  function FillAsWritten(html: string, slot: string, value: string): (r: string)
    requires |slot| > 0
    ensures !Occurs(html, slot) ==> r == html
    ensures '$' !in value ==> r == Fill(html, slot, value)
  {
    EscapeHtmlDollar(value);
    ReplaceGlobal(html, slot, EscapeHtml(value))
  }

  /** Filling a slot that holds no `<` or `>` keeps the number of each in the page. */
  lemma FillKeepsMarkup(html: string, slot: string, value: string)
    requires |slot| > 0
    requires '<' !in slot && '>' !in slot
    ensures Count(Fill(html, slot, value), '<') == Count(html, '<')
    ensures Count(Fill(html, slot, value), '>') == Count(html, '>')
  {
    EscapeHtmlNoMarkup(value);
    ReplaceAllKeepsCount(html, slot, EscapeHtml(value), '<');
    ReplaceAllKeepsCount(html, slot, EscapeHtml(value), '>');
  }

  /** The three placeholders hold no markup character. */
  lemma SlotsHoldNoMarkup()
    ensures '<' !in DisplayNameSlot && '>' !in DisplayNameSlot
    ensures '<' !in UsernameSlot && '>' !in UsernameSlot
    ensures '<' !in TenantIdSlot && '>' !in TenantIdSlot
  {
  }

  /** The template holds none of the three placeholders. */
  predicate NoSlots(template: string)
  {
    !Occurs(template, DisplayNameSlot) && !Occurs(template, UsernameSlot) && !Occurs(template, TenantIdSlot)
  }

  /** None of the values the profile page shows holds a `$`. */
  predicate ProfileValuesDollarFree(user: AccountInfo)
  {
    '$' !in DisplayName(Some(user)) && '$' !in Username(user) && '$' !in TenantId(Some(user))
  }

  /** The profile page with the verbatim fill: the corrected rendering. */
  function ProfilePage(template: string, user: AccountInfo): string
  {
    var html := Fill(template, DisplayNameSlot, DisplayName(Some(user)));
    var html := Fill(html, UsernameSlot, Username(user));
    Fill(html, TenantIdSlot, TenantId(Some(user)))
  }

  /**
   The profile page as the server renders it: display name, username and
   tenant id filled in, in that order. A template without placeholders is
   sent as it is; with `$`-free values it is the verbatim-fill page.
   */
  function ProfilePageAsWritten(template: string, user: AccountInfo): (r: string)
    ensures NoSlots(template) ==> r == template
    ensures ProfileValuesDollarFree(user) ==> r == ProfilePage(template, user)
  {
    var html := FillAsWritten(template, DisplayNameSlot, DisplayName(Some(user)));
    var html := FillAsWritten(html, UsernameSlot, Username(user));
    FillAsWritten(html, TenantIdSlot, TenantId(Some(user)))
  }

  /** With the verbatim fill, no markup character enters the profile page through a value. */
  lemma ProfilePageKeepsMarkup(template: string, user: AccountInfo)
    ensures Count(ProfilePage(template, user), '<') == Count(template, '<')
    ensures Count(ProfilePage(template, user), '>') == Count(template, '>')
  {
    var html1 := Fill(template, DisplayNameSlot, DisplayName(Some(user)));
    var html2 := Fill(html1, UsernameSlot, Username(user));
    var html3 := Fill(html2, TenantIdSlot, TenantId(Some(user)));
    assert ProfilePage(template, user) == html3;
    SlotsHoldNoMarkup();
    FillKeepsMarkup(template, DisplayNameSlot, DisplayName(Some(user)));
    FillKeepsMarkup(html1, UsernameSlot, Username(user));
    FillKeepsMarkup(html2, TenantIdSlot, TenantId(Some(user)));
  }

  /** The page the server sends keeps the template's markup whenever no value holds a `$`. */
  lemma ProfilePageAsWrittenKeepsMarkup(template: string, user: AccountInfo)
    requires ProfileValuesDollarFree(user)
    ensures Count(ProfilePageAsWritten(template, user), '<') == Count(template, '<')
    ensures Count(ProfilePageAsWritten(template, user), '>') == Count(template, '>')
  {
    ProfilePageKeepsMarkup(template, user);
  }

  /**
   The fill is sequential, not simultaneous: a username that reads
   `{{tenantId}}` is itself replaced by the escaped tenant id in the last
   pass, whoever the user is.
   */
  lemma ProfilePageFillsInsertedSlot(user: AccountInfo)
    requires Username(user) == TenantIdSlot
    requires '$' !in TenantId(Some(user))
    ensures ProfilePageAsWritten(UsernameSlot, user) == EscapeHtml(TenantId(Some(user)))
  {
    NotOccursShorter(UsernameSlot, DisplayNameSlot);
    var html1 := FillAsWritten(UsernameSlot, DisplayNameSlot, DisplayName(Some(user)));
    assert html1 == UsernameSlot;
    SlotIsPlain(TenantIdSlot);
    EscapeHtmlIdentity(TenantIdSlot);
    FillWholeSlot(UsernameSlot, TenantIdSlot);
    var html2 := FillAsWritten(html1, UsernameSlot, Username(user));
    assert html2 == TenantIdSlot;
    FillWholeSlot(TenantIdSlot, TenantId(Some(user)));
  }

  /**
   `{{tenantId}}` holds no character `escapeHtml` rewrites and no `$`. The
   slot is a parameter so that the solver does not expand definitions on
   the literal text.
   */
  lemma SlotIsPlain(slot: string)
    requires slot == TenantIdSlot
    ensures Plain(slot) && '$' !in slot
  {
  }

  /** A page that is exactly the placeholder becomes the escaped value. */
  lemma FillWholeSlot(slot: string, value: string)
    requires |slot| > 0
    requires '$' !in value
    ensures FillAsWritten(slot, slot, value) == EscapeHtml(value)
  {
    WholeSlotReplaced(slot, EscapeHtml(value));
  }

  /** A template that is exactly one placeholder becomes the replacement text. */
  lemma WholeSlotReplaced(slot: string, rep: string)
    requires |slot| > 0
    ensures ReplaceAll(slot, slot, rep) == rep
  {
    assert slot[..|slot|] == slot;
    assert slot[|slot|..] == [];
    assert rep + [] == rep;
  }

  /** None of the values the no-subscription page shows holds a `$`. */
  predicate NoSubscriptionValuesDollarFree(user: Option<AccountInfo>)
  {
    '$' !in DisplayName(user) && '$' !in TenantId(user)
  }

  /** The no-subscription page with the verbatim fill: the corrected rendering. */
  function NoSubscriptionPage(template: string, user: Option<AccountInfo>): string
  {
    var html := Fill(template, DisplayNameSlot, DisplayName(user));
    Fill(html, TenantIdSlot, TenantId(user))
  }

  /**
   The no-subscription page as the server renders it: display name and
   tenant id filled in. Without those placeholders the template is sent as
   it is; with `$`-free values it is the verbatim-fill page.
   */
  function NoSubscriptionPageAsWritten(template: string, user: Option<AccountInfo>): (r: string)
    ensures !Occurs(template, DisplayNameSlot) && !Occurs(template, TenantIdSlot) ==> r == template
    ensures NoSubscriptionValuesDollarFree(user) ==> r == NoSubscriptionPage(template, user)
  {
    var html := FillAsWritten(template, DisplayNameSlot, DisplayName(user));
    FillAsWritten(html, TenantIdSlot, TenantId(user))
  }

  /** With the verbatim fill, no markup character enters the no-subscription page through a value. */
  lemma NoSubscriptionPageKeepsMarkup(template: string, user: Option<AccountInfo>)
    ensures Count(NoSubscriptionPage(template, user), '<') == Count(template, '<')
    ensures Count(NoSubscriptionPage(template, user), '>') == Count(template, '>')
  {
    SlotsHoldNoMarkup();
    FillKeepsMarkup(template, DisplayNameSlot, DisplayName(user));
    FillKeepsMarkup(Fill(template, DisplayNameSlot, DisplayName(user)), TenantIdSlot, TenantId(user));
  }

  /** The page the server sends keeps the template's markup whenever no value holds a `$`. */
  lemma NoSubscriptionPageAsWrittenKeepsMarkup(template: string, user: Option<AccountInfo>)
    requires NoSubscriptionValuesDollarFree(user)
    ensures Count(NoSubscriptionPageAsWritten(template, user), '<') == Count(template, '<')
    ensures Count(NoSubscriptionPageAsWritten(template, user), '>') == Count(template, '>')
  {
    NoSubscriptionPageKeepsMarkup(template, user);
  }

  /**
   GET /profile. Without a session user it redirects to `/login` before
   anything else. Otherwise it loads the profile template, derives the
   tenant id, asks the database for that tenant's active subscription rows,
   and redirects to `/no-subscription` when there are none or renders the
   profile page when there are some. A throw in any awaited step gives the
   error page with status 500.
   */
  function Profile(
    session: Option<AccountInfo>,
    profileHtml: Attempt<string>,
    activeRows: string -> Attempt<nat>,
    errorHtml: string): (h: Handled)
    ensures h.response == Redirect("/login") <==> session.None?
    ensures session.None? || profileHtml.Threw? ==> h.queriedTenant.None?
    ensures session.Some? && profileHtml.Done? ==> h.queriedTenant == Some(TenantId(session))
    ensures h.response == Redirect("/no-subscription")
            <==> session.Some? && profileHtml.Done? && activeRows(TenantId(session)) == Done(0)
    ensures h.response.Html? && h.response.status == 200
            <==> session.Some? && profileHtml.Done? && activeRows(TenantId(session)).Done?
                 && activeRows(TenantId(session)).value > 0
    ensures h.response.Html? && h.response.status == 200
            ==> h.response.body == ProfilePageAsWritten(profileHtml.value, session.value)
    ensures h.response == Html(500, errorHtml)
            <==> session.Some? && (profileHtml.Threw? || activeRows(TenantId(session)).Threw?)
  {
    match session
    case None => Handled(Redirect("/login"), None)
    case Some(user) =>
      match profileHtml
      case Threw => Handled(Html(500, errorHtml), None)
      case Done(template) =>
        var tenantId := TenantId(session);
        match activeRows(tenantId)
        case Threw => Handled(Html(500, errorHtml), Some(tenantId))
        case Done(rows) =>
          if rows == 0 then Handled(Redirect("/no-subscription"), Some(tenantId))
          else Handled(Html(200, ProfilePageAsWritten(template, user)), Some(tenantId))
  }

  /** Every request to /profile ends in exactly one of the four outcomes. */
  lemma ProfileOutcomes(
    session: Option<AccountInfo>,
    profileHtml: Attempt<string>,
    activeRows: string -> Attempt<nat>,
    errorHtml: string)
    ensures var r := Profile(session, profileHtml, activeRows, errorHtml).response;
            r == Redirect("/login") || r == Redirect("/no-subscription")
            || (r.Html? && r.status == 200) || r == Html(500, errorHtml)
  {
  }

  /**
   Without a session user the no-subscription page shows `"User"` and an
   empty tenant id.
   The parameters are fixed by the requires so that the solver does not
   expand definitions on literal text.
   */
  lemma NoSubscriptionWithoutUser(template: string, name: string)
    requires name == "User"
    ensures NoSubscriptionPageAsWritten(template, None) == ReplaceAll(ReplaceAll(template, DisplayNameSlot, name), TenantIdSlot, "")
  {
    assert Plain(name) && '$' !in name;
    EscapeHtmlIdentity(name);
    EscapeHtmlIdentity("");
  }

  /**
   GET /no-subscription. It needs no session user: without one the page
   shows `"User"` and an empty tenant id.
   */
  function NoSubscription(session: Option<AccountInfo>, template: string): (r: Response)
    ensures r.Html? && r.status == 200
    ensures r.body == NoSubscriptionPageAsWritten(template, session)
    ensures session.None?
            ==> r.body == ReplaceAll(ReplaceAll(template, DisplayNameSlot, "User"), TenantIdSlot, "")
  {
    NoSubscriptionWithoutUser(template, "User");
    Html(200, NoSubscriptionPageAsWritten(template, session))
  }

  /**
   As written, a `$` pattern in a filled value is expanded: a username of
   `` $` `` puts the template text before the placeholder, markup included,
   into the page a second time. The verbatim fill shows the username.
   */
  lemma DollarPatternCopiesMarkup()
    ensures
      var user := AccountInfo(None, Some("$`"), None, None);
      var template := "<b>" + UsernameSlot;
      && ProfilePageAsWritten(template, user) == "<b><b>"
      && Count(ProfilePageAsWritten(template, user), '<') == 2
      && Count(template, '<') == 1
      && ProfilePage(template, user) == "<b>$`"
  {
    var user := AccountInfo(None, Some("$`"), None, None);
    var template := "<b>" + UsernameSlot;
    DollarPageAsWritten(user, template);
    DollarPageCorrected(user, template);
    assert Count("<b><b>", '<') == 2;
    CountConcat("<b>", UsernameSlot, '<');
    SlotsHoldNoMarkup();
    CountZero(UsernameSlot, '<');
  }

  /**
   The counterexample page as written.
   The parameters are fixed by the requires so that the solver does not
   expand definitions on literal text.
   */
  lemma DollarPageAsWritten(user: AccountInfo, template: string)
    requires user == AccountInfo(None, Some("$`"), None, None)
    requires template == "<b>" + UsernameSlot
    ensures ProfilePageAsWritten(template, user) == "<b><b>"
  {
    DollarUserValues(user);
    assert template[0] != DisplayNameSlot[0];
    NotOccursSameLength(template, DisplayNameSlot);
    BacktickExpanded();
    var w1 := FillAsWritten(template, DisplayNameSlot, "$`");
    assert w1 == template;
    var w2 := FillAsWritten(w1, UsernameSlot, "$`");
    assert w2 == "<b><b>";
    NotOccursShorter("<b><b>", TenantIdSlot);
  }

  /**
   The counterexample page with the verbatim fill.
   The parameters are fixed by the requires so that the solver does not
   expand definitions on literal text.
   */
  lemma DollarPageCorrected(user: AccountInfo, template: string)
    requires user == AccountInfo(None, Some("$`"), None, None)
    requires template == "<b>" + UsernameSlot
    ensures ProfilePage(template, user) == "<b>$`"
  {
    DollarUserValues(user);
    assert template[0] != DisplayNameSlot[0];
    NotOccursSameLength(template, DisplayNameSlot);
    BacktickLiteral();
    ReplaceAllAbsent(template, DisplayNameSlot, "$`");
    var f1 := Fill(template, DisplayNameSlot, "$`");
    assert f1 == template;
    var f2 := Fill(f1, UsernameSlot, "$`");
    assert f2 == "<b>$`";
    NotOccursShorter("<b>$`", TenantIdSlot);
    ReplaceAllAbsent("<b>$`", TenantIdSlot, "");
  }

  /**
   The values the counterexample user shows, escaped.
   The parameters are fixed by the requires so that the solver does not
   expand definitions on literal text.
   */
  lemma DollarUserValues(user: AccountInfo)
    requires user == AccountInfo(None, Some("$`"), None, None)
    ensures DisplayName(Some(user)) == "$`" && Username(user) == "$`" && TenantId(Some(user)) == ""
    ensures EscapeHtml("$`") == "$`" && EscapeHtml("") == ""
  {
    assert Plain("$`");
    EscapeHtmlIdentity("$`");
    EscapeHtmlIdentity("");
  }

  /** The username pass of the counterexample as written: `` $` `` expands to the text before the placeholder. */
  lemma BacktickExpanded()
    ensures ReplaceGlobal("<b>" + UsernameSlot, UsernameSlot, "$`") == "<b><b>"
  {
    var t := "<b>" + UsernameSlot;
    var p := UsernameSlot;
    assert |t| == 15 && |p| == 12;
    assert t[0] == '<' && t[1] == 'b' && t[2] == '>' && p[0] == '{';
    assert t[3..15] == p;
    assert t[..3] == "<b>";
    assert t[15..] == [];
    assert t[0..12] != p by { assert t[0..12][0] == t[0]; }
    assert t[1..13] != p by { assert t[1..13][0] == t[1]; }
    assert t[2..14] != p by { assert t[2..14][0] == t[2]; }
    assert Substitution("$`", p, "<b>", "") == "<b>";
    var r15 := ReplaceFrom(t, p, "$`", 15);
    assert r15 == [];
    var r3 := ReplaceFrom(t, p, "$`", 3);
    assert r3 == "<b>" + r15;
    var r2 := ReplaceFrom(t, p, "$`", 2);
    assert r2 == [t[2]] + r3;
    var r1 := ReplaceFrom(t, p, "$`", 1);
    assert r1 == [t[1]] + r2;
    var r0 := ReplaceFrom(t, p, "$`", 0);
    assert r0 == [t[0]] + r1;
  }

  /** The username pass of the counterexample with the verbatim fill: the username itself. */
  lemma BacktickLiteral()
    ensures ReplaceAll("<b>" + UsernameSlot, UsernameSlot, "$`") == "<b>$`"
  {
    var t := "<b>" + UsernameSlot;
    var p := UsernameSlot;
    assert |t| == 15 && |p| == 12;
    assert t[0] == '<' && t[1] == 'b' && t[2] == '>' && p[0] == '{';
    var u := t[3..];
    assert u == p;
    WholeSlotReplaced(p, "$`");
    assert t[1..][1..][1..] == u;
    assert t[..12] != p by { assert t[..12][0] == t[0]; }
    assert t[1..][..12] != p by { assert t[1..][..12][0] == t[1]; }
    assert t[1..][1..][..12] != p by { assert t[1..][1..][..12][0] == t[2]; }
    var l2 := ReplaceAll(t[1..][1..], p, "$`");
    assert l2 == [t[2]] + ReplaceAll(u, p, "$`");
    var l1 := ReplaceAll(t[1..], p, "$`");
    assert l1 == [t[1]] + l2;
    assert ReplaceAll(t, p, "$`") == [t[0]] + l1;
  }

  /**
   On a page, a username of `$<` puts the placeholder text back: the
   template `{{username}}` renders as `{{username}}lt;`.
   The parameters are fixed by the requires so that the solver does not
   expand definitions on literal text.
   */
  lemma LessThanUsernameRepeatsSlot(user: AccountInfo, template: string)
    requires user == AccountInfo(None, Some("$<"), None, None)
    requires template == UsernameSlot
    ensures ProfilePageAsWritten(template, user) == UsernameSlot + "lt;"
  {
    NotOccursShorter(template, DisplayNameSlot);
    var html1 := FillAsWritten(template, DisplayNameSlot, DisplayName(Some(user)));
    assert html1 == template;
    EscapeCreatesMatchPattern(Username(user), UsernameSlot, [], []);
    WholeSlotAsWritten(UsernameSlot, EscapeHtml(Username(user)));
    var html2 := FillAsWritten(html1, UsernameSlot, Username(user));
    assert html2 == UsernameSlot + "lt;";
    TenantSlotAbsent(html2);
    assert TenantId(Some(user)) == "";
  }

  /** As written, a page that is exactly the placeholder becomes the expanded replacement. */
  lemma WholeSlotAsWritten(slot: string, rep: string)
    requires |slot| > 0
    ensures ReplaceGlobal(slot, slot, rep) == Substitution(rep, slot, [], [])
  {
    assert slot[0..|slot|] == slot;
    assert slot[..0] == [] && slot[|slot|..] == [];
    assert ReplaceFrom(slot, slot, rep, |slot|) == [];
  }

  /** `{{username}}lt;` holds no `{{tenantId}}`: every window differs early on. The text is fixed by the requires. */
  lemma TenantSlotAbsent(s: string)
    requires s == UsernameSlot + "lt;"
    ensures !Occurs(s, TenantIdSlot)
  {
    var p := TenantIdSlot;
    assert |s| == 15 && |p| == 12;
    assert s[2] == 'u' && s[3] == 's' && p[0] == '{' && p[1] == '{' && p[2] == 't';
    assert s[..12] != p by { assert s[..12][2] == s[2]; }
    assert s[1..][..12] != p by { assert s[1..][..12][1] == s[2]; }
    assert s[1..][1..][..12] != p by { assert s[1..][1..][..12][0] == s[2]; }
    assert s[1..][1..][1..][..12] != p by { assert s[1..][1..][1..][..12][0] == s[3]; }
    NotOccursShorter(s[1..][1..][1..][1..], p);
    assert !Occurs(s[1..][1..][1..], p);
    assert !Occurs(s[1..][1..], p);
    assert !Occurs(s[1..], p);
  }
}
