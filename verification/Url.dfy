/** URL and host name recognition (`is_url`, `is_hostname` in lib/mp_check.c; section 3 of RFC 3986). */
module Url {
  import opened Wrappers

  type Class = char -> bool

  // ----- characters -----

  predicate Digit(c: char) { '0' <= c <= '9' }
  predicate Alpha(c: char) { 'a' <= c <= 'z' || 'A' <= c <= 'Z' }
  predicate AlNum(c: char) { Alpha(c) || Digit(c) }
  predicate HexDigit(c: char) { Digit(c) || 'a' <= c <= 'f' || 'A' <= c <= 'F' }
  predicate SchemeChar(c: char) { AlNum(c) || c == '+' || c == '-' || c == '.' }
  predicate LabelChar(c: char) { AlNum(c) || c == '-' || c == '_' }
  predicate HexOrColon(c: char) { HexDigit(c) || c == ':' }

  /** Note the missing underscore: section 3.2.1 of RFC 3986 allows it. */
  predicate UserChar(c: char) {
    || AlNum(c) || c == '+' || c == '-' || c == '.' || c == '~' || c == '!' || c == '$' || c == '&'
    || c == '\'' || c == '(' || c == ')' || c == '*' || c == ',' || c == ';' || c == '=' || c == ':'
  }

  predicate PathChar(c: char) { UserChar(c) || c == '_' || c == '@' || c == '/' }
  predicate QueryChar(c: char) { PathChar(c) || c == '?' || c == '#' }

  // ----- the classes by their codes -----

  predicate DigitCode(n: int) { 0x30 <= n <= 0x39 }
  predicate LetterCode(n: int) { 0x41 <= n <= 0x5A || 0x61 <= n <= 0x7A }
  predicate HexCode(n: int) { DigitCode(n) || 0x41 <= n <= 0x46 || 0x61 <= n <= 0x66 }

  /** Letters, digits, exclamation mark, dollar, the codes from ampersand to point, colon, semicolon, equals, tilde. */
  predicate UserCode(n: int) {
    || DigitCode(n) || LetterCode(n)
    || n == 0x21 || n == 0x24 || 0x26 <= n <= 0x2E || n == 0x3A || n == 0x3B || n == 0x3D || n == 0x7E
  }

  lemma ClassesByCode(c: char)
    ensures var n := c as int;
      && (Digit(c) <==> DigitCode(n)) && (Alpha(c) <==> LetterCode(n)) && (HexDigit(c) <==> HexCode(n))
      && (SchemeChar(c) <==> LetterCode(n) || DigitCode(n) || n == 0x2B || n == 0x2D || n == 0x2E)
      && (LabelChar(c) <==> LetterCode(n) || DigitCode(n) || n == 0x2D || n == 0x5F)
      && (HexOrColon(c) <==> HexCode(n) || n == 0x3A)
      && (UserChar(c) <==> UserCode(n))
      && (PathChar(c) <==> UserCode(n) || n == 0x2F || n == 0x40 || n == 0x5F)
      && (QueryChar(c) <==> UserCode(n) || n == 0x2F || n == 0x40 || n == 0x5F || n == 0x23 || n == 0x3F)
      && (AfterAuthority(c) <==> n == 0x2F || n == 0x3F || n == 0x23)
      && (AfterPath(c) <==> n == 0x3F || n == 0x23)
      && (Colon(c) <==> n == 0x3A) && (AtSign(c) <==> n == 0x40) && (Dot(c) <==> n == 0x2E)
      && (Bracket(c) <==> n == 0x5D)
  {
  }

  predicate Colon(c: char) { c == ':' }
  predicate AtSign(c: char) { c == '@' }
  predicate Dot(c: char) { c == '.' }
  predicate Bracket(c: char) { c == ']' }
  predicate AfterAuthority(c: char) { c == '/' || c == '?' || c == '#' }
  predicate AfterPath(c: char) { c == '?' || c == '#' }

  predicate All(s: string, p: Class) { forall i :: 0 <= i < |s| ==> p(s[i]) }
  predicate NoneOf(s: string, p: Class) { forall i :: 0 <= i < |s| ==> !p(s[i]) }

  /** Characters of the class and percent signs with two hexadecimal digits. */
  predicate Encoded(s: string, p: Class, k: nat)
    requires k <= |s|
    decreases |s| - k
  {
    || k == |s|
    || (p(s[k]) && Encoded(s, p, k + 1))
    || (!p(s[k]) && s[k] == '%' && k + 2 < |s| && HexDigit(s[k + 1]) && HexDigit(s[k + 2]) && Encoded(s, p, k + 3))
  }

  // ----- cutting, as `strsep` does -----

  /** The first character of the class from k on, or the end. */
  function Find(s: string, p: Class, k: nat := 0): (n: nat)
    requires k <= |s|
    ensures k <= n <= |s|
    ensures forall i :: k <= i < n ==> !p(s[i])
    ensures n < |s| ==> p(s[n])
    decreases |s| - k
  {
    if k == |s| || p(s[k]) then k else Find(s, p, k + 1)
  }

  /** The text cut off and what remains, with the character it was cut at. */
  datatype Cut = Cut(before: string, after: Option<(char, string)>)

  function CutAt(s: string, p: Class): (c: Cut)
    ensures NoneOf(c.before, p) && (c.after.Some? ==> p(c.after.value.0))
    ensures c.after.Some? ==> |c.before| + |c.after.value.1| < |s|
  {
    var k := Find(s, p);
    if k == |s| then Cut(s, None) else Cut(s[..k], Some((s[k], s[k + 1..])))
  }

  function Joined(c: Cut): string {
    match c.after
    case None => c.before
    case Some((mark, rest)) => c.before + ([mark] + rest)
  }

  lemma JoinedCut(s: string, p: Class)
    ensures Joined(CutAt(s, p)) == s
  {
  }

  lemma CutJoined(c: Cut, p: Class)
    requires NoneOf(c.before, p) && (c.after.Some? ==> p(c.after.value.0))
    ensures CutAt(Joined(c), p) == c
  {
    var s := Joined(c);
    var k := Find(s, p);
    match c.after
    case None =>
    case Some((mark, rest)) =>
      assert s[|c.before|] == mark;
      assert forall i :: 0 <= i < |c.before| ==> s[i] == c.before[i];
      assert k == |c.before|;
      assert s[..k] == c.before && s[k + 1..] == rest;
  }

  lemma NoneOfJoined(c: Cut, q: Class)
    ensures NoneOf(Joined(c), q) <==>
      NoneOf(c.before, q) && (c.after.Some? ==> !q(c.after.value.0) && NoneOf(c.after.value.1, q))
  {
    match c.after
    case None =>
    case Some((mark, rest)) =>
      var s := Joined(c);
      assert forall i :: 0 <= i < |c.before| ==> s[i] == c.before[i];
      assert s[|c.before|] == mark;
      assert forall i :: 0 <= i < |rest| ==> s[|c.before| + 1 + i] == rest[i];
  }

  // ----- the parts of a URL -----

  datatype Host =
    | Bracketed(text: string, digits: string)
    | Address(text: string, port: Option<string>)
    | Name(text: string, port: Option<string>)

  datatype Authority = NoAuthority | Authority(user: Option<string>, host: Host)

  datatype Tail = Tail(mark: char, path: string, query: Option<(char, string)>)

  datatype Parts = Parts(scheme: string, authority: Authority, tail: Option<Tail>)

  function WithPort(text: string, port: Option<string>): Cut {
    Cut(text, if port.None? then None else Some((':', port.value)))
  }

  function HostText(h: Host): string {
    match h
    case Bracketed(text, digits) => "[" + Joined(Cut(text, Some((']', digits))))
    case Address(text, port) => Joined(WithPort(text, port))
    case Name(text, port) => Joined(WithPort(text, port))
  }

  function AuthorityText(a: Authority): string {
    match a
    case NoAuthority => ""
    case Authority(user, host) =>
      if user.None? then HostText(host) else Joined(Cut(user.value, Some(('@', HostText(host)))))
  }

  function RestText(authority: string, tail: Option<Tail>): string {
    if tail.None? then Joined(Cut(authority, None))
    else Joined(Cut(authority, Some((tail.value.mark, Joined(Cut(tail.value.path, tail.value.query))))))
  }

  /** The URL put together from its parts. */
  function UrlText(u: Parts): string {
    Joined(Cut(u.scheme, Some((':', "//" + RestText(AuthorityText(u.authority), u.tail)))))
  }

  // ----- which parts are admitted -----

  predicate ValidScheme(s: string) {
    s != "" && Alpha(s[0]) && All(s, SchemeChar)
  }

  /** Labels of letters, digits, hyphens and underscores between single dots. */
  predicate ValidName(s: string) {
    && s != "" && s[0] != '.' && s[|s| - 1] != '.'
    && (forall i :: 0 <= i < |s| ==> LabelChar(s[i]) || s[i] == '.')
    && (forall i :: 0 < i < |s| && s[i - 1] == '.' ==> s[i] != '.')
  }

  predicate ValidPort(port: Option<string>) {
    port.Some? ==> All(port.value, Digit)
  }

  predicate ValidHost(h: Host, isAddress: string -> bool) {
    match h
    case Bracketed(text, digits) =>
      text != "" && All(text, HexOrColon) && (text[0] == ':' ==> |text| > 1) && All(digits, Digit)
    case Address(text, port) => isAddress(text) && ValidPort(port)
    case Name(text, port) => ValidName(text) && ValidPort(port)
  }

  predicate ValidAuthority(a: Authority, isAddress: string -> bool) {
    match a
    case NoAuthority => true
    case Authority(user, host) =>
      && ValidHost(host, isAddress)
      && (user.Some? ==> user.value != "" && Encoded(user.value, UserChar, 0))
  }

  predicate ValidTail(t: Tail) {
    Encoded(t.path, PathChar, 0) && (t.query.Some? ==> Encoded(t.query.value.1, QueryChar, 0))
  }

  /** Every part is made of the characters of its class. */
  predicate ValidParts(u: Parts, isAddress: string -> bool) {
    && ValidScheme(u.scheme) && ValidAuthority(u.authority, isAddress)
    && (u.tail.Some? ==> ValidTail(u.tail.value))
  }

  // ----- which parts are delimited -----

  predicate CleanHost(h: Host) {
    match h
    case Bracketed(text, digits) => NoneOf(text, Bracket)
    case Address(text, port) => text != "" && Digit(text[0]) && NoneOf(text, Colon)
    case Name(text, port) => (text != "" ==> !Digit(text[0]) && text[0] != '[') && NoneOf(text, Colon)
  }

  predicate CleanAuthority(a: Authority) {
    match a
    case NoAuthority => true
    case Authority(user, host) =>
      && CleanHost(host)
      && (if user.None? then NoneOf(HostText(host), AtSign) else NoneOf(user.value, AtSign))
      && AuthorityText(a) != ""
  }

  predicate CleanTail(t: Tail) {
    AfterAuthority(t.mark) && NoneOf(t.path, AfterPath) && (t.query.Some? ==> AfterPath(t.query.value.0))
  }

  /** No part contains the mark that ends it. */
  predicate CleanParts(u: Parts) {
    && NoneOf(u.scheme, Colon)
    && CleanAuthority(u.authority) && NoneOf(AuthorityText(u.authority), AfterAuthority)
    && (u.tail.Some? ==> CleanTail(u.tail.value))
  }

  // ----- cutting a URL into its parts -----

  function PortOf(c: Cut): Option<string> {
    if c.after.None? then None else Some(c.after.value.1)
  }

  function CutHost(s: string): Option<Host> {
    if s != "" && s[0] == '[' then
      var c := CutAt(s[1..], Bracket);
      if c.after.None? then None else Some(Bracketed(c.before, c.after.value.1))
    else
      var c := CutAt(s, Colon);
      if s != "" && Digit(s[0]) then Some(Address(c.before, PortOf(c))) else Some(Name(c.before, PortOf(c)))
  }

  function CutAuthority(s: string): Option<Authority> {
    if s == "" then Some(NoAuthority)
    else
      var c := CutAt(s, AtSign);
      match CutHost(if c.after.None? then s else c.after.value.1)
      case None => None
      case Some(h) => Some(Authority(if c.after.None? then None else Some(c.before), h))
  }

  function CutTail(after: Option<(char, string)>): Option<Tail> {
    match after
    case None => None
    case Some((mark, s)) =>
      var c := CutAt(s, AfterPath);
      Some(Tail(mark, c.before, c.after))
  }

  function CutUrl(url: string): Option<Parts> {
    var c := CutAt(url, Colon);
    if c.after.None? || |c.after.value.1| < 2 || c.after.value.1[0] != '/' || c.after.value.1[1] != '/' then None
    else
      var r := CutAt(c.after.value.1[2..], AfterAuthority);
      match CutAuthority(r.before)
      case None => None
      case Some(a) => Some(Parts(c.before, a, CutTail(r.after)))
  }

  lemma CutHostText(s: string)
    ensures CutHost(s).Some? ==> CleanHost(CutHost(s).value) && HostText(CutHost(s).value) == s
  {
    if s != "" && s[0] == '[' {
      JoinedCut(s[1..], Bracket);
      assert "[" + s[1..] == s;
    } else {
      JoinedCut(s, Colon);
    }
  }

  lemma HostTextCut(h: Host)
    requires CleanHost(h)
    ensures CutHost(HostText(h)) == Some(h)
  {
    match h
    case Bracketed(text, digits) =>
      var c := Cut(text, Some((']', digits)));
      CutJoined(c, Bracket);
      assert HostText(h)[1..] == Joined(c);
    case Address(text, port) =>
      CutJoined(WithPort(text, port), Colon);
    case Name(text, port) =>
      CutJoined(WithPort(text, port), Colon);
  }

  lemma CutAuthorityText(s: string)
    ensures CutAuthority(s).Some? ==> CleanAuthority(CutAuthority(s).value) && AuthorityText(CutAuthority(s).value) == s
  {
    if s != "" {
      var c := CutAt(s, AtSign);
      JoinedCut(s, AtSign);
      CutHostText(if c.after.None? then s else c.after.value.1);
    }
  }

  lemma AuthorityTextCut(a: Authority)
    requires CleanAuthority(a)
    ensures CutAuthority(AuthorityText(a)) == Some(a)
  {
    match a
    case NoAuthority =>
    case Authority(user, host) =>
      var text := HostText(host);
      var c := if user.None? then Cut(text, None) else Cut(user.value, Some(('@', text)));
      CutJoined(c, AtSign);
      HostTextCut(host);
  }

  lemma TailCut(t: Tail)
    requires CleanTail(t)
    ensures CutTail(Some((t.mark, Joined(Cut(t.path, t.query))))) == Some(t)
  {
    CutJoined(Cut(t.path, t.query), AfterPath);
  }

  lemma RestCut(s: string)
    ensures var r := CutAt(s, AfterAuthority); var t := CutTail(r.after);
      RestText(r.before, t) == s && (t.Some? ==> CleanTail(t.value))
  {
    var r := CutAt(s, AfterAuthority);
    JoinedCut(s, AfterAuthority);
    if r.after.Some? {
      JoinedCut(r.after.value.1, AfterPath);
    }
  }

  lemma RestTextCut(authority: string, tail: Option<Tail>)
    requires NoneOf(authority, AfterAuthority) && (tail.Some? ==> CleanTail(tail.value))
    ensures var r := CutAt(RestText(authority, tail), AfterAuthority); r.before == authority && CutTail(r.after) == tail
  {
    if tail.None? {
      CutJoined(Cut(authority, None), AfterAuthority);
    } else {
      var t := tail.value;
      CutJoined(Cut(authority, Some((t.mark, Joined(Cut(t.path, t.query))))), AfterAuthority);
      TailCut(tail.value);
    }
  }

  lemma SlashesSplit(rest: string)
    ensures var s := "//" + rest; |s| >= 2 && s[0] == '/' && s[1] == '/' && s[2..] == rest
  {
  }

  lemma SlashesJoin(s: string)
    requires |s| >= 2 && s[0] == '/' && s[1] == '/'
    ensures "//" + s[2..] == s
  {
  }

  /** Main result: the cut parts, put together again, are the URL. */
  lemma CutUrlText(url: string)
    ensures CutUrl(url).Some? ==> CleanParts(CutUrl(url).value) && UrlText(CutUrl(url).value) == url
  {
    if CutUrl(url).Some? {
      var s := CutAt(url, Colon).after.value.1;
      JoinedCut(url, Colon);
      SlashesJoin(s);
      RestCut(s[2..]);
      CutAuthorityText(CutAt(s[2..], AfterAuthority).before);
    }
  }

  /** Main result: parts free of their own end marks are found again. */
  lemma UrlTextCut(u: Parts)
    requires CleanParts(u)
    ensures CutUrl(UrlText(u)) == Some(u)
  {
    var rest := RestText(AuthorityText(u.authority), u.tail);
    CutJoined(Cut(u.scheme, Some((':', "//" + rest))), Colon);
    SlashesSplit(rest);
    RestTextCut(AuthorityText(u.authority), u.tail);
    AuthorityTextCut(u.authority);
  }

  /** The URLs of the grammar, for any notion of a numeric address. */
  ghost predicate IsUrlText(url: string, isAddress: string -> bool) {
    exists u :: CleanParts(u) && ValidParts(u, isAddress) && UrlText(u) == url
  }

  lemma GrammarIsDecided(url: string, isAddress: string -> bool)
    ensures IsUrlText(url, isAddress) <==> CutUrl(url).Some? && ValidParts(CutUrl(url).value, isAddress)
  {
    CutUrlText(url);
    if IsUrlText(url, isAddress) {
      var u :| CleanParts(u) && ValidParts(u, isAddress) && UrlText(u) == url;
      UrlTextCut(u);
    }
  }

  /** A URL has one reading only. */
  lemma PartsAreUnique(u: Parts, v: Parts)
    requires CleanParts(u) && CleanParts(v) && UrlText(u) == UrlText(v)
    ensures u == v
  {
    UrlTextCut(u);
    UrlTextCut(v);
  }

  // ----- the code -----

  predicate Labels(s: string)
    decreases |s|
  {
    var c := CutAt(s, Dot);
    c.before != "" && All(c.before, LabelChar) && (c.after.Some? ==> Labels(c.after.value.1))
  }

  lemma {:induction false} LabelsAreName(s: string)
    ensures Labels(s) <==> ValidName(s)
    decreases |s|
  {
    var c := CutAt(s, Dot);
    JoinedCut(s, Dot);
    match c.after
    case None =>
    case Some((dot, rest)) =>
      LabelsAreName(rest);
      NameSplits(c.before, rest);
  }

  lemma NameSplits(a: string, rest: string)
    requires NoneOf(a, Dot)
    ensures ValidName(a + (['.'] + rest)) <==> a != "" && All(a, LabelChar) && ValidName(rest)
  {
    var s, n := a + (['.'] + rest), |a| + 1;
    assert forall i :: 0 <= i < |a| ==> s[i] == a[i];
    assert s[|a|] == '.';
    assert forall i :: 0 <= i < |rest| ==> s[n + i] == rest[i];
  }

  /** `is_hostname`. */
  method IsHostname(address: string) returns (ok: bool)
    ensures ok == ValidName(address)
  {
    LabelsAreName(address);
    var addr := Some(address);
    while addr.Some?
      invariant Labels(address) == (addr.Some? ==> Labels(addr.value))
      decreases addr.Some?, if addr.Some? then |addr.value| else 0
    {
      var c := CutAt(addr.value, Dot);
      if c.before == "" || !All(c.before, LabelChar) {
        return false;
      }
      addr := if c.after.None? then None else Some(c.after.value.1);
    }
    return true;
  }

  /** The loops over userinfo, path and query. */
  method ScanEncoded(s: string, p: Class) returns (ok: bool)
    ensures ok == Encoded(s, p, 0)
  {
    var i := 0;
    while i < |s|
      invariant i <= |s| && Encoded(s, p, 0) == Encoded(s, p, i)
    {
      if p(s[i]) {
        i := i + 1;
      } else if s[i] == '%' && i + 2 < |s| && HexDigit(s[i + 1]) && HexDigit(s[i + 2]) {
        i := i + 3;
      } else {
        return false;
      }
    }
    return true;
  }

  /** The loops over the scheme, the bracketed host and the port. */
  method ScanAll(s: string, p: Class) returns (ok: bool)
    ensures ok == All(s, p)
  {
    var i := 0;
    while i < |s|
      invariant i <= |s| && forall j :: 0 <= j < i ==> p(s[j])
    {
      if !p(s[i]) {
        return false;
      }
      i := i + 1;
    }
    return true;
  }

  method CheckHost(buf: string, isAddress: string -> bool) returns (ok: bool)
    ensures ok == (CutHost(buf).Some? && ValidHost(CutHost(buf).value, isAddress))
  {
    var port: string := [];
    if buf != "" && buf[0] == '[' {
      var c := CutAt(buf[1..], Bracket);
      var text := c.before;
      if text != "" && text[0] == ':' {
        text := text[1..];
      }
      if c.after.None? || text == "" {
        return false;
      }
      var hex := ScanAll(text, HexOrColon);
      assert All(text, HexOrColon) == All(c.before, HexOrColon) by {
        assert forall i :: 0 <= i < |text| ==> text[i] == c.before[|c.before| - |text| + i];
      }
      if !hex {
        return false;
      }
      port := c.after.value.1;
    } else {
      var c := CutAt(buf, Colon);
      if buf != "" && Digit(buf[0]) {
        if !isAddress(c.before) {
          return false;
        }
      } else {
        var name := IsHostname(c.before);
        if !name {
          return false;
        }
      }
      if c.after.Some? {
        port := c.after.value.1;
      }
    }
    ok := ScanAll(port, Digit);
  }

  method CheckAuthority(buf: string, isAddress: string -> bool) returns (ok: bool)
    ensures ok == (CutAuthority(buf).Some? && ValidAuthority(CutAuthority(buf).value, isAddress))
  {
    if buf == "" {
      return true;
    }
    var c := CutAt(buf, AtSign);
    var host := buf;
    if c.after.Some? {
      var user := ScanEncoded(c.before, UserChar);
      if c.before == "" || !user {
        return false;
      }
      host := c.after.value.1;
    }
    ok := CheckHost(host, isAddress);
  }

  method CheckTail(remain: Option<(char, string)>) returns (ok: bool)
    ensures ok == (CutTail(remain).Some? ==> ValidTail(CutTail(remain).value))
  {
    if remain.None? {
      return true;
    }
    var c := CutAt(remain.value.1, AfterPath);
    ok := ScanEncoded(c.before, PathChar);
    if ok && c.after.Some? {
      ok := ScanEncoded(c.after.value.1, QueryChar);
    }
  }

  /** Main result: `is_url` accepts exactly the URLs of the grammar. */
  method IsUrl(url: string, isAddress: string -> bool) returns (ok: bool)
    ensures ok <==> IsUrlText(url, isAddress)
  {
    GrammarIsDecided(url, isAddress);
    var c := CutAt(url, Colon);
    if c.after.None? || c.before == "" || !Alpha(c.before[0]) {
      return false;
    }
    var scheme := ScanAll(c.before, SchemeChar);
    if !scheme {
      return false;
    }
    var remain := c.after.value.1;
    if |remain| < 2 || remain[0] != '/' || remain[1] != '/' {
      return false;
    }
    var r := CutAt(remain[2..], AfterAuthority);
    ok := CheckAuthority(r.before, isAddress);
    if ok {
      ok := CheckTail(r.after);
    }
  }

  // ----- how a URL is spelled -----

  lemma HostSpelled(text: string, port: string)
    ensures HostText(Bracketed(text, port)) == "[" + text + "]" + port
    ensures HostText(Address(text, Some(port))) == text + ":" + port == HostText(Name(text, Some(port)))
    ensures HostText(Address(text, None)) == text == HostText(Name(text, None))
  {
    assert "[" + (text + ("]" + port)) == "[" + text + "]" + port;
    assert text + (":" + port) == text + ":" + port;
  }

  lemma AuthoritySpelled(user: string, h: Host)
    ensures AuthorityText(Authority(Some(user), h)) == user + "@" + HostText(h)
    ensures AuthorityText(Authority(None, h)) == HostText(h) && AuthorityText(NoAuthority) == ""
  {
    assert user + ("@" + HostText(h)) == user + "@" + HostText(h);
  }

  lemma UrlSpelled(scheme: string, a: Authority, mark: char, path: string, after: char, query: string)
    ensures UrlText(Parts(scheme, a, None)) == scheme + "://" + AuthorityText(a)
    ensures UrlText(Parts(scheme, a, Some(Tail(mark, path, None)))) ==
            scheme + "://" + AuthorityText(a) + [mark] + path
    ensures UrlText(Parts(scheme, a, Some(Tail(mark, path, Some((after, query)))))) ==
            scheme + "://" + AuthorityText(a) + [mark] + path + [after] + query
  {
    var t := AuthorityText(a);
    SpelledFrom(scheme, t);
    SpelledFrom(scheme, t + ([mark] + path));
    SpelledFrom(scheme, t + ([mark] + (path + ([after] + query))));
    assert scheme + "://" + (t + ([mark] + path)) == scheme + "://" + t + [mark] + path;
    assert scheme + "://" + (t + ([mark] + (path + ([after] + query)))) ==
           scheme + "://" + t + [mark] + path + [after] + query;
  }

  lemma SpelledFrom(scheme: string, rest: string)
    ensures scheme + ([':'] + ("//" + rest)) == scheme + "://" + rest
  {
  }

  // ----- what follows for callers -----

  lemma OneEncoded(c: char, p: Class)
    ensures Encoded([c], p, 0) <==> p(c)
  {
    assert Encoded([c], p, 1);
  }

  /** Which single character a path may consist of: the URL "x:///" with it. */
  lemma OneCharPathIff(c: char, isAddress: string -> bool)
    requires !AfterPath(c)
    ensures IsUrlText(UrlText(Parts(['x'], NoAuthority, Some(Tail('/', [c], None)))), isAddress) <==>
      UserCode(c as int) || c == '/' || c == '@' || c == '_'
  {
    var u := Parts(['x'], NoAuthority, Some(Tail('/', [c], None)));
    ClassesByCode(c);
    OneEncoded(c, PathChar);
    assert CleanParts(u);
    UrlTextCut(u);
    GrammarIsDecided(UrlText(u), isAddress);
  }

  /** Encoded text holds no character that is neither in the class nor part of a percent triple. */
  lemma {:induction false} EncodedHasNone(s: string, p: Class, q: Class, k: nat)
    requires k <= |s| && Encoded(s, p, k)
    requires forall c :: q(c) ==> !p(c) && c != '%' && !HexDigit(c)
    ensures forall i :: k <= i < |s| ==> !q(s[i])
    decreases |s| - k
  {
    if k < |s| {
      EncodedHasNone(s, p, q, if p(s[k]) then k + 1 else k + 3);
    }
  }

  lemma BracketHostIsClean(text: string, port: string, q: Class)
    requires All(text, HexOrColon) && NoneOf(port, q)
    requires forall c :: q(c) ==> !HexOrColon(c) && c != '[' && c != ']'
    ensures NoneOf(HostText(Bracketed(text, port)), q)
  {
    var c := Cut(text, Some((']', port)));
    assert forall i :: 0 <= i < |text| ==> HexOrColon(text[i]);
    NoneOfJoined(c, q);
    NoneOfPrefixed('[', Joined(c), q);
  }

  lemma NoneOfPrefixed(c: char, s: string, p: Class)
    requires !p(c) && NoneOf(s, p)
    ensures NoneOf([c] + s, p)
  {
  }

  lemma BracketPartsAreClean(u: Parts)
    requires u.authority.Authority? && u.authority.host.Bracketed? && ValidScheme(u.scheme)
    requires u.authority.user.Some? ==> u.authority.user.value != "" && Encoded(u.authority.user.value, UserChar, 0)
    requires u.tail.Some? ==> CleanTail(u.tail.value)
    requires var h := u.authority.host; All(h.text, HexOrColon) && NoneOf(h.digits, AfterAuthority)
    requires u.authority.user.None? ==> NoneOf(u.authority.host.digits, AtSign)
    ensures CleanParts(u)
  {
    var user, h := u.authority.user, u.authority.host;
    assert NoneOf(u.scheme, Colon) by {
      assert forall i :: 0 <= i < |u.scheme| ==> SchemeChar(u.scheme[i]);
    }
    assert NoneOf(h.text, Bracket) by {
      assert forall i :: 0 <= i < |h.text| ==> HexOrColon(h.text[i]);
    }
    BracketHostIsClean(h.text, h.digits, AfterAuthority);
    if user.None? {
      BracketHostIsClean(h.text, h.digits, AtSign);
    } else {
      EncodedHasNone(user.value, UserChar, AtSign, 0);
      EncodedHasNone(user.value, UserChar, AfterAuthority, 0);
      NoneOfJoined(Cut(user.value, Some(('@', HostText(h)))), AfterAuthority);
    }
  }

  /**
   A port after a bracketed address is read without its colon, so "[::1]:80" is refused: whatever
   the other parts, what stands between the bracket and the next mark must be digits alone.
   */
  lemma BracketPortIff(scheme: string, user: Option<string>, text: string, port: string, tail: Option<Tail>,
                       isAddress: string -> bool)
    requires ValidScheme(scheme) && text != "" && text != ":" && All(text, HexOrColon)
    requires user.Some? ==> user.value != "" && Encoded(user.value, UserChar, 0)
    requires tail.Some? ==> CleanTail(tail.value) && ValidTail(tail.value)
    requires NoneOf(port, AfterAuthority) && (user.None? ==> NoneOf(port, AtSign))
    ensures IsUrlText(UrlText(Parts(scheme, Authority(user, Bracketed(text, port)), tail)), isAddress)
            <==> All(port, Digit)
  {
    var u := Parts(scheme, Authority(user, Bracketed(text, port)), tail);
    BracketPartsAreClean(u);
    UrlTextCut(u);
    GrammarIsDecided(UrlText(u), isAddress);
  }

  /** So a port written with its colon is always refused. */
  lemma ColonAfterBracketRefused(scheme: string, user: Option<string>, text: string, port: string, tail: Option<Tail>,
                                 isAddress: string -> bool)
    requires ValidScheme(scheme) && text != "" && text != ":" && All(text, HexOrColon) && All(port, Digit)
    requires user.Some? ==> user.value != "" && Encoded(user.value, UserChar, 0)
    requires tail.Some? ==> CleanTail(tail.value) && ValidTail(tail.value)
    ensures !IsUrlText(UrlText(Parts(scheme, Authority(user, Bracketed(text, [':'] + port)), tail)), isAddress)
  {
    var p := [':'] + port;
    assert forall i :: 0 < i < |p| ==> Digit(p[i]) by {
      assert forall i :: 0 < i < |p| ==> p[i] == port[i - 1];
    }
    assert !Digit(p[0]);
    BracketPortIff(scheme, user, text, p, tail, isAddress);
  }
}
