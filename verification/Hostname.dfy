/** Host names as the router accepts them (src/services/utils.rs). */
module Hostname {
  import opened Options

  const LOCAL_DOMAIN := "lan"
  const MDNS_DOMAIN := "local"
  const ROUTER_HOSTNAME := "router"

  /** The characters Unicode calls white space. */
  predicate IsSpace(c: char) {
    || '\t' <= c <= '\r' || c == ' ' || c == '\U{85}' || c == '\U{A0}' || c == '\U{1680}'
    || '\U{2000}' <= c <= '\U{200A}' || c == '\U{2028}' || c == '\U{2029}' || c == '\U{202F}'
    || c == '\U{205F}' || c == '\U{3000}'
  }

  predicate IsAlphanumeric(c: char) {
    '0' <= c <= '9' || 'A' <= c <= 'Z' || 'a' <= c <= 'z'
  }

  predicate IsLabelChar(c: char) {
    IsAlphanumeric(c) || c == '-'
  }

  function LowerChar(c: char): char {
    if 'A' <= c <= 'Z' then c - 'A' + 'a' else c
  }

  function Lower(s: string): (r: string)
    ensures |r| == |s|
  {
    seq(|s|, i requires 0 <= i < |s| => LowerChar(s[i]))
  }

  /** The text before the first dot. */
  function FirstLabel(s: string): (r: string) {
    if s == "" || s[0] == '.' then "" else [s[0]] + FirstLabel(s[1..])
  }

  function TrimStart(s: string): (r: string) {
    if s != "" && IsSpace(s[0]) then TrimStart(s[1..]) else s
  }

  function TrimEnd(s: string): (r: string) {
    if s != "" && IsSpace(s[|s| - 1]) then TrimEnd(s[..|s| - 1]) else s
  }

  function Sanitize(raw: string): (r: Option<string>) {
    var name := TrimEnd(TrimStart(FirstLabel(raw)));
    if name == "" || |name| > 63 then None
    else if name[0] == '-' || name[|name| - 1] == '-' then None
    else if exists i | 0 <= i < |name| :: !IsLabelChar(name[i]) then None
    else Some(Lower(name))
  }

  /** A single lower-case label in the sense of RFC 1123. */
  predicate IsHostname(h: string) {
    && 1 <= |h| <= 63
    && h[0] != '-' && h[|h| - 1] != '-'
    && forall i | 0 <= i < |h| :: '0' <= h[i] <= '9' || 'a' <= h[i] <= 'z' || h[i] == '-'
  }

  lemma {:induction false} FirstLabelWhole(s: string)
    requires forall i | 0 <= i < |s| :: s[i] != '.'
    ensures FirstLabel(s) == s
  {
    if s != "" {
      FirstLabelWhole(s[1..]);
    }
  }

  lemma LowerLabelChar(c: char)
    requires IsLabelChar(c)
    ensures var l := LowerChar(c);
            && ('0' <= l <= '9' || 'a' <= l <= 'z' || l == '-')
            && (l == '-' <==> c == '-')
  {
  }

  // What passes the checks is a host name once it is in lower case.
  lemma {:induction false} LowerIsHostname(name: string)
    requires 1 <= |name| <= 63 && name[0] != '-' && name[|name| - 1] != '-'
    requires forall i | 0 <= i < |name| :: IsLabelChar(name[i])
    ensures IsHostname(Lower(name))
  {
    hide IsLabelChar, LowerChar;
    forall i | 0 <= i < |name|
      ensures var l := Lower(name)[i];
              ('0' <= l <= '9' || 'a' <= l <= 'z' || l == '-') && (l == '-' <==> name[i] == '-')
    {
      LowerLabelChar(name[i]);
    }
  }

  lemma {:induction false} SanitizedIsHostname(raw: string)
    ensures Sanitize(raw).Some? ==> IsHostname(Sanitize(raw).value)
  {
    hide TrimStart, TrimEnd, FirstLabel, Lower, IsHostname;
    if Sanitize(raw).Some? {
      LowerIsHostname(TrimEnd(TrimStart(FirstLabel(raw))));
    }
  }

  lemma {:induction false} HostnameIsTrimmed(h: string)
    requires IsHostname(h)
    ensures TrimEnd(TrimStart(FirstLabel(h))) == h
  {
    hide FirstLabel;
    FirstLabelWhole(h);
  }

  lemma {:induction false} HostnameIsLower(h: string)
    requires IsHostname(h)
    ensures Lower(h) == h && forall i | 0 <= i < |h| :: IsLabelChar(h[i])
  {
  }

  /** Sanitizing yields host names only, and exactly the host names are left as they are. */
  lemma {:induction false} SanitizeYieldsHostnames(raw: string)
    ensures Sanitize(raw).Some? ==> IsHostname(Sanitize(raw).value)
    ensures Sanitize(raw) == Some(raw) <==> IsHostname(raw)
  {
    hide TrimStart, TrimEnd, FirstLabel, Lower;
    SanitizedIsHostname(raw);
    if IsHostname(raw) {
      HostnameIsTrimmed(raw);
      HostnameIsLower(raw);
    }
  }

  /** Sanitizing twice is sanitizing once. */
  lemma {:induction false} SanitizeIsIdempotent(raw: string)
    requires Sanitize(raw).Some?
    ensures Sanitize(Sanitize(raw).value) == Sanitize(raw)
  {
    hide Sanitize, IsHostname;
    SanitizeYieldsHostnames(raw);
    SanitizeYieldsHostnames(Sanitize(raw).value);
  }

  // ---- what is accepted ----

  /** A label of letters, digits and inner dashes, in either case, of at most 63 characters. */
  predicate IsLabel(name: string) {
    && 1 <= |name| <= 63 && name[0] != '-' && name[|name| - 1] != '-'
    && forall i | 0 <= i < |name| :: IsLabelChar(name[i])
  }

  predicate AreSpaces(s: string) {
    forall i | 0 <= i < |s| :: IsSpace(s[i])
  }

  lemma {:induction false} FirstLabelStops(s: string, rest: string)
    requires forall i | 0 <= i < |s| :: s[i] != '.'
    requires rest == "" || rest[0] == '.'
    ensures FirstLabel(s + rest) == s
  {
    if s == "" {
      assert s + rest == rest;
    } else {
      assert (s + rest)[1..] == s[1..] + rest;
      FirstLabelStops(s[1..], rest);
    }
  }

  lemma {:induction false} TrimStartDrops(a: string, s: string)
    requires AreSpaces(a) && s != "" && !IsSpace(s[0])
    ensures TrimStart(a + s) == s
  {
    hide IsSpace;
    if a == "" {
      assert a + s == s;
    } else {
      assert (a + s)[1..] == a[1..] + s;
      TrimStartDrops(a[1..], s);
    }
  }

  lemma {:induction false} TrimEndDrops(s: string, b: string)
    requires AreSpaces(b) && s != "" && !IsSpace(s[|s| - 1])
    ensures TrimEnd(s + b) == s
  {
    hide IsSpace;
    if b == "" {
      assert s + b == s;
    } else {
      assert (s + b)[..|s + b| - 1] == s + b[..|b| - 1];
      TrimEndDrops(s, b[..|b| - 1]);
    }
  }

  /** A label is accepted, in lower case, whatever white space is around it and whatever follows after a dot. */
  lemma {:induction false} SanitizeAccepts(a: string, name: string, b: string, rest: string)
    requires AreSpaces(a) && AreSpaces(b) && IsLabel(name) && (rest == "" || rest[0] == '.')
    ensures Sanitize(a + name + b + rest) == Some(Lower(name))
  {
    hide TrimStart, TrimEnd, FirstLabel, Lower;
    FirstLabelStops(a + name + b, rest);
    assert a + (name + b) == a + name + b;
    TrimStartDrops(a, name + b);
    TrimEndDrops(name, b);
  }

  lemma {:induction false} FirstLabelParts(s: string) returns (rest: string)
    ensures s == FirstLabel(s) + rest && (rest == "" || rest[0] == '.')
  {
    if s == "" || s[0] == '.' {
      rest := s;
    } else {
      rest := FirstLabelParts(s[1..]);
      assert s == [s[0]] + s[1..];
    }
  }

  lemma {:induction false} TrimStartParts(s: string) returns (a: string)
    ensures AreSpaces(a) && s == a + TrimStart(s)
  {
    hide IsSpace;
    a := "";
    if s != "" && IsSpace(s[0]) {
      var a' := TrimStartParts(s[1..]);
      a := [s[0]] + a';
      assert s == [s[0]] + s[1..];
    }
  }

  lemma {:induction false} TrimEndParts(s: string) returns (b: string)
    ensures AreSpaces(b) && s == TrimEnd(s) + b
  {
    hide IsSpace;
    b := "";
    if s != "" && IsSpace(s[|s| - 1]) {
      var b' := TrimEndParts(s[..|s| - 1]);
      b := b' + [s[|s| - 1]];
      assert s == s[..|s| - 1] + [s[|s| - 1]];
    }
  }

  /** Nothing else is accepted. */
  lemma {:induction false} SanitizedFrom(raw: string) returns (a: string, name: string, b: string, rest: string)
    requires Sanitize(raw).Some?
    ensures raw == a + name + b + rest && AreSpaces(a) && AreSpaces(b) && IsLabel(name) && (rest == "" || rest[0] == '.')
    ensures Sanitize(raw) == Some(Lower(name))
  {
    hide TrimStart, TrimEnd, FirstLabel, Lower, AreSpaces;
    rest := FirstLabelParts(raw);
    a := TrimStartParts(FirstLabel(raw));
    b := TrimEndParts(TrimStart(FirstLabel(raw)));
    name := TrimEnd(TrimStart(FirstLabel(raw)));
    assert raw == a + (name + b) + rest;
  }
}
