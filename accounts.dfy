/** The decision logic of the accounts screen: what removing an account does
    to the account list, to the active account and to the session, and the
    LNDHub export URI offered for accounts of the "lndhub" connector. The
    browser's confirmation dialog is an input and the calls the screen makes
    (remove, refresh, select, close the window) are read off the result. */
module Accounts {

  datatype Option<T> = None | Some(value: T)

  /** What the screen does after the user asked to remove an account.
      - Cancelled: the user did not confirm; nothing is removed or selected.
      - Continue: the account is removed, the account list is refreshed and
        shows `remaining`; `select`, when present, becomes the active account.
      - CloseSession: the account is removed, none remain, the window closes. */
  datatype Removal =
    | Cancelled
    | Continue(remaining: seq<string>, select: Option<string>)
    | CloseSession

  /** `accountIds.filter((accountId) => accountId !== id)`. */
  function Without(ids: seq<string>, id: string): (r: seq<string>)
    ensures forall x :: x in r <==> x in ids && x != id
    ensures |r| <= |ids|
  {
    if ids == [] then []
    else (if ids[0] != id then [ids[0]] else []) + Without(ids[1..], id)
  }

  /** `s[0]`, which is `undefined` on an empty array. */
  function First(s: seq<string>): (r: Option<string>)
    ensures r.Some? <==> s != []
    ensures r.Some? ==> r.value == s[0]
  {
    if s == [] then None else Some(s[0])
  }

  /** JavaScript truthiness of an optional string: `undefined` and "" are
      falsy, every other string is truthy. */
  function Truthy(o: Option<string>): (r: bool)
    ensures r <==> o.Some? && |o.value| > 0
  {
    o.Some? && o.value != ""
  }

  /** `x` is the first id of `ids`, in order, that differs from `id`. */
  ghost predicate IsFirstOther(ids: seq<string>, id: string, x: string) {
    exists k :: 0 <= k < |ids| && ids[k] == x && x != id && forall j :: 0 <= j < k ==> ids[j] == id
  }

  /** `removeAccount`: the successor is fixed from the list as it was before
      the removal, and only when the active account is the one removed and
      more than one account exists; the window closes when no id remains. */
  function RemoveAccount(accountIds: seq<string>, activeId: Option<string>, id: string, confirmed: bool): (d: Removal)
    ensures d.Cancelled? <==> !confirmed
    ensures d.CloseSession? <==> confirmed && forall k :: 0 <= k < |accountIds| ==> accountIds[k] == id
    ensures d.Continue? ==> d.remaining == Without(accountIds, id) && d.remaining != []
    ensures d.Continue? && d.select.Some? ==>
              && activeId == Some(id)
              && |accountIds| > 1
              && d.select.value != ""
              && d.select.value in d.remaining
              && IsFirstOther(accountIds, id, d.select.value)
  {
    if !confirmed then Cancelled
    else
      var nextAccountId := if activeId == Some(id) && |accountIds| > 1 then First(Without(accountIds, id)) else None;
      var remaining := Without(accountIds, id);
      NonEmptyWithout(accountIds, id);
      if |remaining| > 0 then
        if Truthy(nextAccountId) then
          WithoutHeadIsFirstOther(accountIds, id);
          Continue(remaining, nextAccountId)
        else Continue(remaining, None)
      else CloseSession
  }

  // ---------------------------------------------------------------------
  // Lemmas about the remaining list and the successor

  /** Filtering preserves order: it distributes over concatenation. */
  lemma {:induction false} WithoutAppend(a: seq<string>, b: seq<string>, id: string)
    ensures Without(a + b, id) == Without(a, id) + Without(b, id)
  {
    if a == [] {
      assert a + b == b;
    } else {
      assert (a + b)[0] == a[0];
      assert (a + b)[1..] == a[1..] + b;
      WithoutAppend(a[1..], b, id);
    }
  }

  /** An id survives exactly as often as it occurs, unless it is the removed one. */
  lemma {:induction false} WithoutCounts(ids: seq<string>, id: string)
    ensures forall x :: multiset(Without(ids, id))[x] == if x == id then 0 else multiset(ids)[x]
  {
    if ids != [] {
      WithoutCounts(ids[1..], id);
      assert ids == [ids[0]] + ids[1..];
    }
  }

  /** Something remains exactly when some id differs from the removed one. */
  lemma {:induction false} NonEmptyWithout(ids: seq<string>, id: string)
    ensures Without(ids, id) != [] <==> exists k :: 0 <= k < |ids| && ids[k] != id
  {
    if ids != [] {
      NonEmptyWithout(ids[1..], id);
      if ids[0] == id && exists k :: 0 <= k < |ids| && ids[k] != id {
        var k :| 0 <= k < |ids| && ids[k] != id;
        assert ids[1..][k - 1] != id;
      }
      if exists k :: 0 <= k < |ids[1..]| && ids[1..][k] != id {
        var k :| 0 <= k < |ids[1..]| && ids[1..][k] != id;
        assert ids[k + 1] != id;
      }
    }
  }

  /** The head of the remaining list is the first id that differs from the removed one. */
  lemma {:induction false} WithoutHeadIsFirstOther(ids: seq<string>, id: string)
    requires Without(ids, id) != []
    ensures IsFirstOther(ids, id, Without(ids, id)[0])
  {
    if ids[0] != id {
      assert ids[0] == Without(ids, id)[0];
      assert IsFirstOther(ids, id, ids[0]);
    } else {
      assert Without(ids, id) == Without(ids[1..], id);
      WithoutHeadIsFirstOther(ids[1..], id);
      var x := Without(ids, id)[0];
      var k :| 0 <= k < |ids[1..]| && ids[1..][k] == x && x != id && forall j :: 0 <= j < k ==> ids[1..][j] == id;
      assert ids[k + 1] == x;
      assert forall j :: 0 <= j < k + 1 ==> ids[j] == id by {
        forall j | 0 <= j < k + 1 ensures ids[j] == id {
          if j > 0 { assert ids[j] == ids[1..][j - 1]; }
        }
      }
    }
  }

  /** There is only one first id that differs from the removed one. */
  lemma FirstOtherUnique(ids: seq<string>, id: string, x: string, y: string)
    requires IsFirstOther(ids, id, x) && IsFirstOther(ids, id, y)
    ensures x == y
  {
    var k :| 0 <= k < |ids| && ids[k] == x && x != id && forall j :: 0 <= j < k ==> ids[j] == id;
    var m :| 0 <= m < |ids| && ids[m] == y && y != id && forall j :: 0 <= j < m ==> ids[j] == id;
  }

  /** Removing the active account, when more than one account exists, makes
      the first other id in the original order active (unless that id is the
      empty string, which the source's truthiness test skips). */
  lemma SuccessorOfActive(accountIds: seq<string>, id: string, x: string)
    requires |accountIds| > 1
    requires IsFirstOther(accountIds, id, x) && x != ""
    ensures RemoveAccount(accountIds, Some(id), id, true) == Continue(Without(accountIds, id), Some(x))
  {
    NonEmptyWithout(accountIds, id);
    WithoutHeadIsFirstOther(accountIds, id);
    FirstOtherUnique(accountIds, id, x, Without(accountIds, id)[0]);
  }

  /** Removing an account that is not the active one never selects another. */
  lemma InactiveRemovalSelectsNothing(accountIds: seq<string>, activeId: Option<string>, id: string)
    requires activeId != Some(id)
    requires exists k :: 0 <= k < |accountIds| && accountIds[k] != id
    ensures RemoveAccount(accountIds, activeId, id, true) == Continue(Without(accountIds, id), None)
  {
    NonEmptyWithout(accountIds, id);
  }

  /** With distinct ids, removing a listed account leaves one fewer. */
  lemma {:induction false} WithoutDistinctLength(ids: seq<string>, id: string)
    requires forall i, j :: 0 <= i < j < |ids| ==> ids[i] != ids[j]
    requires id in ids
    ensures |Without(ids, id)| == |ids| - 1
  {
    if ids[0] == id {
      assert id !in ids[1..];
      WithoutAbsent(ids[1..], id);
    } else {
      WithoutDistinctLength(ids[1..], id);
    }
  }

  /** Removing an id that is not listed leaves the list as it is. */
  lemma {:induction false} WithoutAbsent(ids: seq<string>, id: string)
    requires id !in ids
    ensures Without(ids, id) == ids
  {
    if ids != [] {
      WithoutAbsent(ids[1..], id);
      assert ids == [ids[0]] + ids[1..];
    }
  }

  /** Removing the active account when exactly one other account exists
      leaves exactly that other account, and makes it active. */
  lemma RemoveActiveOfTwo(accountIds: seq<string>, id: string, other: string)
    requires accountIds == [id, other] || accountIds == [other, id]
    requires other != id && other != ""
    ensures RemoveAccount(accountIds, Some(id), id, true) == Continue([other], Some(other))
  {
    assert IsFirstOther(accountIds, id, other) by {
      if accountIds == [id, other] {
        assert accountIds[1] == other && accountIds[0] == id;
      } else {
        assert accountIds[0] == other;
      }
    }
    SuccessorOfActive(accountIds, id, other);
    assert accountIds[1..][1..] == [];
  }

  /** Removing the only account closes the session, whichever account is active. */
  lemma RemoveOnlyAccount(id: string, activeId: Option<string>)
    ensures RemoveAccount([id], activeId, id, true) == CloseSession
  {
  }

  // ---------------------------------------------------------------------
  // LNDHub export

  /** An account as the accounts screen sees it. */
  datatype Account = Account(name: string, connector: string)

  /** The decrypted details the export dialog shows. */
  datatype LndhubCredentials = LndhubCredentials(login: string, password: string, url: string)

  const Scheme: string := "lndhub://"

  /** The export URI, as shown in the QR code and in the read-only text field. */
  function ExportUri(c: LndhubCredentials): (r: string)
    ensures |r| == |Scheme| + |c.login| + |c.password| + |c.url| + 3
    ensures r[..|Scheme|] == Scheme && r[|r| - 1] == '/'
    ensures r[|Scheme| + |c.login|] == ':' && r[|Scheme| + |c.login| + 1 + |c.password|] == '@'
    ensures r[|Scheme|..|Scheme| + |c.login|] == c.login
    ensures r[|Scheme| + |c.login| + 1..|Scheme| + |c.login| + 1 + |c.password|] == c.password
    ensures r[|r| - 1 - |c.url|..|r| - 1] == c.url
  {
    Scheme + c.login + ":" + c.password + "@" + c.url + "/"
  }

  /** The export menu item is offered only for accounts of the "lndhub"
      connector; for those it leads to the export URI of their details. */
  function ExportOffer(account: Account, details: LndhubCredentials): (r: Option<string>)
    ensures r.Some? <==> account.connector == "lndhub"
    ensures r.Some? ==> r.value == ExportUri(details)
    ensures r.Some? && Recoverable(details) ==> ParseExportUri(r.value) == Some(details)
  {
    if account.connector != "lndhub" then None
    else if Recoverable(details) then
      ExportRoundTrip(details);
      Some(ExportUri(details))
    else Some(ExportUri(details))
  }

  /** Index of the first `c` in `s`, or `|s|` when there is none. */
  function FirstIndex(s: string, c: char): (k: nat)
    ensures k <= |s|
    ensures k < |s| ==> s[k] == c
    ensures forall j :: 0 <= j < k ==> s[j] != c
  {
    if s == [] then 0
    else if s[0] == c then 0
    else 1 + FirstIndex(s[1..], c)
  }

  /** Splits `s` around its first `c`, if there is one. */
  function SplitAtFirst(s: string, c: char): (r: Option<(string, string)>)
    ensures r.None? <==> c !in s
    ensures r.Some? ==> s == r.value.0 + [c] + r.value.1 && c !in r.value.0
  {
    var k := FirstIndex(s, c);
    if k == |s| then None
    else
      assert s == s[..k] + [s[k]] + s[k + 1..];
      Some((s[..k], s[k + 1..]))
  }

  /** The body between the scheme and the closing '/', if the URI has both. */
  function StripScheme(uri: string): (r: Option<string>)
    ensures r.Some? ==> uri == Scheme + r.value + "/"
  {
    if |uri| < |Scheme| + 1 || uri[..|Scheme|] != Scheme || uri[|uri| - 1] != '/' then None
    else
      assert uri == uri[..|Scheme|] + uri[|Scheme|..|uri| - 1] + [uri[|uri| - 1]];
      Some(uri[|Scheme|..|uri| - 1])
  }

  /** Reading an export URI back the way an importing wallet splits it: the
      scheme, then the login up to the first ':', the password up to the first
      '@' and the URL up to the closing '/'. */
  function ParseExportUri(uri: string): Option<LndhubCredentials> {
    match StripScheme(uri)
    case None => None
    case Some(body) =>
      match SplitAtFirst(body, '@')
      case None => None
      case Some((userinfo, url)) =>
        match SplitAtFirst(userinfo, ':')
        case None => None
        case Some((login, password)) => Some(LndhubCredentials(login, password, url))
  }

  /** Credentials whose login and password do not contain the separators. */
  predicate Recoverable(c: LndhubCredentials) {
    ':' !in c.login && '@' !in c.login && '@' !in c.password
  }

  lemma StripSchemeOf(body: string)
    ensures StripScheme(Scheme + body + "/") == Some(body)
  {
    var uri := Scheme + body + "/";
    assert uri[..|Scheme|] == Scheme;
    assert uri[|Scheme|..|uri| - 1] == body;
  }

  lemma SplitAtFirstOf(a: string, c: char, b: string)
    requires c !in a
    ensures SplitAtFirst(a + [c] + b, c) == Some((a, b))
  {
    var s := a + [c] + b;
    assert s[|a|] == c;
    assert forall j :: 0 <= j < |a| ==> s[j] == a[j];
    assert FirstIndex(s, c) == |a|;
    assert s[..|a|] == a;
    assert s[|a| + 1..] == b;
  }

  /** The credentials can be read back from their export URI whenever the
      login and password do not contain the separators. */
  lemma ExportRoundTrip(c: LndhubCredentials)
    requires Recoverable(c)
    ensures ParseExportUri(ExportUri(c)) == Some(c)
  {
    var userinfo := c.login + ":" + c.password;
    var body := userinfo + "@" + c.url;
    assert ExportUri(c) == Scheme + body + "/";
    StripSchemeOf(body);
    assert '@' !in userinfo;
    SplitAtFirstOf(userinfo, '@', c.url);
    SplitAtFirstOf(c.login, ':', c.password);
  }

  /** Every URI that reads back as credentials is exactly their export URI. */
  lemma ParsedUriIsExportUri(uri: string, c: LndhubCredentials)
    requires ParseExportUri(uri) == Some(c)
    ensures ExportUri(c) == uri
    ensures Recoverable(c)
  {
    var body := StripScheme(uri).value;
    var (userinfo, url) := SplitAtFirst(body, '@').value;
    var (login, password) := SplitAtFirst(userinfo, ':').value;
    assert c == LndhubCredentials(login, password, url);
    assert userinfo == login + ":" + password;
    assert body == userinfo + "@" + url;
    assert uri == Scheme + body + "/";
    // Regrouping the concatenation step by step keeps this proof cheap.
    calc {
      ExportUri(c);
      Scheme + login + ":" + password + "@" + url + "/";
      { Assoc3(Scheme, login, ":"); }
      Scheme + (login + ":") + password + "@" + url + "/";
      { Assoc3(Scheme, login + ":", password); }
      Scheme + userinfo + "@" + url + "/";
      { Assoc3(Scheme, userinfo, "@"); }
      Scheme + (userinfo + "@") + url + "/";
      { Assoc3(Scheme, userinfo + "@", url); }
      Scheme + body + "/";
    }
  }

  lemma Assoc3(a: string, b: string, c: string)
    ensures a + b + c == a + (b + c)
  {
  }

  /** Without that condition the URI does not determine the credentials:
      an '@' in the password reads as the end of the password. */
  lemma ExportUriAmbiguous()
    ensures ExportUri(LndhubCredentials("a", "b@c", "d")) == ExportUri(LndhubCredentials("a", "b", "c@d"))
  {
  }
}
