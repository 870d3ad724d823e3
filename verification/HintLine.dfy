/** Lines of key hints: a key with, in any order, the session and the sender it is for. */
module HintLines {
  import opened Bytes
  import opened Numerals
  import opened Options

  /** MatterProxyHintKey. */
  datatype Hint = Hint(key: seq<Byte>, keyId: Option<nat>, srcNodeId: Option<nat>)

  // ---- Tokens ----

  predicate AllSpace(s: string) { forall i :: 0 <= i < |s| ==> IsSpace(s[i]) }

  function Find(s: string, c: char): (k: nat)
    ensures k <= |s| && (k < |s| ==> s[k] == c) && forall i :: 0 <= i < k ==> s[i] != c
  {
    if s == "" || s[0] == c then 0
    else
      var k := Find(s[1..], c);
      assert forall i :: 1 <= i < k + 1 ==> s[i] == s[1..][i - 1];
      k + 1
  }

  function WordEnd(s: string): (k: nat)
    ensures k <= |s| && (k < |s| ==> IsSpace(s[k])) && forall i :: 0 <= i < k ==> !IsSpace(s[i])
  {
    if s == "" || IsSpace(s[0]) then 0
    else
      var k := WordEnd(s[1..]);
      assert forall i :: 1 <= i < k + 1 ==> s[i] == s[1..][i - 1];
      k + 1
  }

  /** The words of a line, as `>>` reads them. */
  function Tokens(s: string): seq<string>
    decreases |s|
  {
    if s == "" then []
    else if IsSpace(s[0]) then Tokens(s[1..])
    else
      var k := WordEnd(s);
      [s[..k]] + Tokens(s[k..])
  }

  predicate IsSeparator(c: char) { c in {',', ';', '\t'} }

  function Spaced(s: string): (r: string)
    ensures |r| == |s| && forall i :: 0 <= i < |s| ==> r[i] == if IsSeparator(s[i]) then ' ' else s[i]
  {
    seq(|s|, i requires 0 <= i < |s| => if IsSeparator(s[i]) then ' ' else s[i])
  }

  // ---- Fields ----

  datatype Fields = Fields(key: string, session: string, src: string)

  function Assigned(fields: Fields, tok: string): Fields {
    var eq := Find(tok, '=');
    if eq == |tok| then
      if fields.key == "" then fields.(key := tok) else fields
    else
      var k, v := tok[..eq], tok[eq + 1..];
      if k in {"key", "key_hex", "enc_key"} then fields.(key := v)
      else if k in {"session", "session_id", "key_id"} then fields.(session := v)
      else if k in {"src", "src_node", "src_node_id"} then fields.(src := v)
      else fields
  }

  function FieldsOf(toks: seq<string>): Fields {
    if toks == [] then Fields("", "", "") else Assigned(FieldsOf(toks[..|toks| - 1]), toks[|toks| - 1])
  }

  function SessionOf(text: string): Option<nat> {
    var n := ParseUIntAuto(text);
    if n.Some? && n.value <= 0xFFFF then n else None
  }

  /** ParseMatterProxyHintLine; a line without a whole key gives nothing. */
  function ParseHintLine(lineRaw: string): Option<Hint> {
    var fields := FieldsOf(Tokens(Spaced(lineRaw[..Find(lineRaw, '#')])));
    var key := KeyBytes(fields.key);
    if key.None? then None
    else Some(Hint(key.value, SessionOf(fields.session), ParseUIntAuto(fields.src)))
  }

  // ---- Parsing as it is done ----

  /** `r` is `s` without the white space around it. */
  ghost predicate Trimmed(s: string, r: string) {
    && (exists b, e :: 0 <= b <= e <= |s| && r == s[b..e] && AllSpace(s[..b]) && AllSpace(s[e..]))
    && (r != "" ==> !IsSpace(r[0]) && !IsSpace(r[|r| - 1]))
  }

  method TrimStr(s: string) returns (r: string)
    ensures Trimmed(s, r)
  {
    var b := 0;
    while b < |s| && IsSpace(s[b])
      invariant b <= |s| && AllSpace(s[..b])
    {
      b := b + 1;
    }
    var e := |s|;
    while e > b && IsSpace(s[e - 1])
      invariant b <= e <= |s| && AllSpace(s[e..])
    {
      e := e - 1;
    }
    r := s[b..e];
  }

  lemma {:induction false} LeadingSpace(g: string, s: string)
    requires AllSpace(g)
    ensures Tokens(g + s) == Tokens(s)
  {
    if g == "" {
      assert g + s == s;
    } else {
      assert (g + s)[1..] == g[1..] + s;
      LeadingSpace(g[1..], s);
    }
  }

  lemma FirstWord(w: string, s: string)
    requires w != "" && (forall i :: 0 <= i < |w| ==> !IsSpace(w[i])) && (s != "" ==> IsSpace(s[0]))
    ensures Tokens(w + s) == [w] + Tokens(s)
  {
    var k := WordEnd(w + s);
    assert !IsSpace((w + s)[0]);
    assert forall i :: 0 <= i < |w| ==> (w + s)[i] == w[i];
    assert s != "" ==> (w + s)[|w|] == s[0];
    assert k == |w|;
    assert (w + s)[..k] == w && (w + s)[k..] == s;
  }

  lemma {:induction false} TrailingSpace(s: string, g: string)
    requires AllSpace(g)
    ensures Tokens(s + g) == Tokens(s)
    decreases |s|
  {
    if s == "" {
      assert s + g == g + "";
      LeadingSpace(g, "");
    } else if IsSpace(s[0]) {
      assert (s + g)[1..] == s[1..] + g;
      TrailingSpace(s[1..], g);
    } else {
      var k := WordEnd(s);
      TrailingSpace(s[k..], g);
      assert s + g == s[..k] + (s[k..] + g);
      FirstWord(s[..k], s[k..] + g);
    }
  }

  lemma TrimKeepsTokens(s: string, r: string)
    requires Trimmed(s, r)
    ensures Tokens(r) == Tokens(s)
  {
    hide Tokens, AllSpace;
    var b, e :| 0 <= b <= e <= |s| && r == s[b..e] && AllSpace(s[..b]) && AllSpace(s[e..]);
    assert s == s[..b] + (r + s[e..]);
    LeadingSpace(s[..b], r + s[e..]);
    TrailingSpace(r, s[e..]);
  }

  method ParseMatterProxyHintLine(lineRaw: string) returns (out: Option<Hint>)
    ensures out == ParseHintLine(lineRaw)
  {
    hide Tokens, FieldsOf, Trimmed, KeyBytes, SessionOf, ParseUIntAuto, Find;
    var line := lineRaw;
    var hashPos := Find(line, '#');
    if hashPos < |line| {
      line := line[..hashPos];
    }
    assert line == lineRaw[..hashPos];
    line := ReplaceSeparators(line);
    var trimmed := TrimStr(line);
    TrimKeepsTokens(line, trimmed);
    if trimmed == "" {
      NothingRead();
      return None;
    }
    var fields := ReadFields(trimmed);
    var key := new Byte[KEY_LENGTH];
    var ok := ParseHexKeyBytes(fields.key, key);
    if !ok {
      return None;
    }
    out := Some(Hint(key[..], SessionOf(fields.session), ParseUIntAuto(fields.src)));
  }

  lemma NothingRead()
    ensures KeyBytes(FieldsOf(Tokens("")).key).None?
  {
  }

  method ReplaceSeparators(s: string) returns (line: string)
    ensures line == Spaced(s)
  {
    line := s;
    for i := 0 to |s|
      invariant |line| == |s|
      invariant forall k :: 0 <= k < i ==> line[k] == if IsSeparator(s[k]) then ' ' else s[k]
      invariant forall k :: i <= k < |s| ==> line[k] == s[k]
    {
      if IsSeparator(line[i]) {
        line := line[i := ' '];
      }
    }
  }

  /** Reads the words one after another and keeps the fields they give. */
  method ReadFields(line: string) returns (fields: Fields)
    ensures fields == FieldsOf(Tokens(line))
  {
    fields := Fields("", "", "");
    var rest := line;
    ghost var done: seq<string> := [];
    while rest != ""
      invariant Tokens(line) == done + Tokens(rest) && fields == FieldsOf(done)
      decreases |rest|
    {
      if IsSpace(rest[0]) {
        rest := rest[1..];
      } else {
        var k := WordEnd(rest);
        assert (done + [rest[..k]])[..|done|] == done;
        fields := Assigned(fields, rest[..k]);
        done := done + [rest[..k]];
        rest := rest[k..];
      }
    }
    assert done + Tokens("") == done;
  }
}
