/** Printed hints are read back, however the line is laid out. */
module HintPrinting {
  import opened Bytes
  import opened Options
  import opened Numerals
  import opened HintLines

  // ---- Lines ----

  /** Space, the separators, and tab through carriage return. */
  predicate IsGap(c: char) { c in {' ', ',', ';'} || 9 <= c as int <= 13 }

  /** A word that survives in a line: no white space, separator or comment sign in it. */
  predicate IsWord(t: string) {
    t != "" && forall i :: 0 <= i < |t| ==> !IsGap(t[i]) && t[i] != '#'
  }

  /** `gaps[i]` stands before word `i`, and the last gap after all of them. */
  function Joined(words: seq<string>, gaps: seq<string>): string
    requires |gaps| == |words| + 1
  {
    if words == [] then gaps[0] else gaps[0] + (words[0] + Joined(words[1..], gaps[1..]))
  }

  /** The gaps consist of white space and separators, and only the outer ones may be empty. */
  predicate WellSpaced(words: seq<string>, gaps: seq<string>) {
    && |gaps| == |words| + 1
    && (forall i, j :: 0 <= i < |gaps| && 0 <= j < |gaps[i]| ==> IsGap(gaps[i][j]))
    && (forall i :: 0 < i < |words| ==> gaps[i] != "")
  }

  predicate IsComment(s: string) { s == "" || s[0] == '#' }

  lemma {:induction false} NoCommentInside(words: seq<string>, gaps: seq<string>)
    requires (forall w :: w in words ==> IsWord(w)) && WellSpaced(words, gaps)
    ensures '#' !in Joined(words, gaps)
  {
    assert forall j :: 0 <= j < |gaps[0]| ==> IsGap(gaps[0][j]);
    if words != [] {
      assert IsWord(words[0]);
      Shorter(words, gaps);
      NoCommentInside(words[1..], gaps[1..]);
    }
  }

  lemma Shorter(words: seq<string>, gaps: seq<string>)
    requires words != [] && (forall w :: w in words ==> IsWord(w)) && WellSpaced(words, gaps)
    ensures (forall w :: w in words[1..] ==> IsWord(w)) && WellSpaced(words[1..], gaps[1..])
  {
    forall i, j | 0 <= i < |gaps| - 1 && 0 <= j < |gaps[1..][i]|
      ensures IsGap(gaps[1..][i][j])
    {
      assert IsGap(gaps[i + 1][j]);
    }
  }

  lemma CutAtComment(s: string, comment: string)
    requires '#' !in s && IsComment(comment)
    ensures (s + comment)[..Find(s + comment, '#')] == s
  {
    var k := Find(s + comment, '#');
    assert forall i :: 0 <= i < |s| ==> (s + comment)[i] == s[i] != '#';
    assert comment != "" ==> (s + comment)[|s|] == '#';
    assert k == |s|;
  }

  /** The words of a line are the words it was laid out from. */
  lemma {:induction false} WordsAreRead(words: seq<string>, gaps: seq<string>)
    requires (forall w :: w in words ==> IsWord(w)) && WellSpaced(words, gaps)
    ensures Tokens(Spaced(Joined(words, gaps))) == words
    decreases |words|
  {
    var line := Joined(words, gaps);
    GapIsSpace(gaps, 0);
    if words == [] {
      LeadingSpace(Spaced(gaps[0]), "");
      assert Spaced(gaps[0]) + "" == Spaced(line);
    } else {
      var w, rest := words[0], Joined(words[1..], gaps[1..]);
      Shorter(words, gaps);
      WordsAreRead(words[1..], gaps[1..]);
      SpacedInTwo(gaps[0], w + rest);
      SpacedInTwo(w, rest);
      WordStays(w);
      LeadingSpace(Spaced(gaps[0]), w + Spaced(rest));
      GapIsSpace(gaps, 1);
      if rest != "" {
        StartsWithGap(words, gaps);
      }
      FirstWord(w, Spaced(rest));
    }
  }

  lemma GapIsSpace(gaps: seq<string>, i: nat)
    requires i < |gaps| && forall i, j :: 0 <= i < |gaps| && 0 <= j < |gaps[i]| ==> IsGap(gaps[i][j])
    ensures AllSpace(Spaced(gaps[i]))
  {
    forall j | 0 <= j < |gaps[i]|
      ensures IsSpace(Spaced(gaps[i])[j])
    {
      assert IsGap(gaps[i][j]);
    }
  }

  lemma StartsWithGap(words: seq<string>, gaps: seq<string>)
    requires words != [] && WellSpaced(words, gaps) && Joined(words[1..], gaps[1..]) != ""
    ensures IsSpace(Spaced(Joined(words[1..], gaps[1..]))[0])
  {
    assert gaps[1] != "" && IsGap(gaps[1][0]);
    assert Joined(words[1..], gaps[1..])[0] == gaps[1][0];
  }

  lemma SpacedInTwo(a: string, b: string)
    ensures Spaced(a + b) == Spaced(a) + Spaced(b)
  {
  }

  lemma WordStays(w: string)
    requires IsWord(w)
    ensures Spaced(w) == w && forall i :: 0 <= i < |w| ==> !IsSpace(w[i])
  {
  }

  // ---- Words of a printed hint ----

  predicate Named(w: string, names: set<string>, text: string) {
    exists name :: name in names && w == name + "=" + text
  }

  const KEY_NAMES := {"key", "key_hex", "enc_key"}
  const SESSION_NAMES := {"session", "session_id", "key_id"}
  const SRC_NAMES := {"src", "src_node", "src_node_id"}

  /** The key in hexadecimal, other characters between its digits allowed, by itself or with a name. */
  ghost predicate IsKeyWord(w: string, key: seq<Byte>) {
    || ('=' !in w && Prints(HexDigitsOf(w), key))
    || exists text :: Named(w, KEY_NAMES, text) && Prints(HexDigitsOf(text), key)
  }

  ghost predicate IsNumberWord(w: string, names: set<string>, n: nat) {
    exists text :: Named(w, names, text) && IsNumeral(text, n)
  }

  /** An assignment to a name that means nothing. */
  predicate IsForeignWord(w: string) {
    var eq := Find(w, '=');
    eq < |w| && w[..eq] !in KEY_NAMES + SESSION_NAMES + SRC_NAMES
  }

  ghost predicate IsSessionWord(w: string, hint: Hint) {
    hint.keyId.Some? && IsNumberWord(w, SESSION_NAMES, hint.keyId.value)
  }

  ghost predicate IsSrcWord(w: string, hint: Hint) {
    hint.srcNodeId.Some? && IsNumberWord(w, SRC_NAMES, hint.srcNodeId.value)
  }

  /** The words print the hint, in any order and under any of the names, and nothing else that counts. */
  ghost predicate PrintsHint(words: seq<string>, hint: Hint) {
    && (forall w :: w in words ==>
          IsKeyWord(w, hint.key) || IsSessionWord(w, hint) || IsSrcWord(w, hint) || IsForeignWord(w))
    && (exists w :: w in words && IsKeyWord(w, hint.key))
    && (hint.keyId.Some? ==> exists w :: w in words && IsSessionWord(w, hint))
    && (hint.srcNodeId.Some? ==> exists w :: w in words && IsSrcWord(w, hint))
  }

  lemma NameIsFound(name: string, text: string)
    requires '=' !in name
    ensures Find(name + "=" + text, '=') == |name| < |name + "=" + text|
    ensures (name + "=" + text)[..|name|] == name && (name + "=" + text)[|name| + 1..] == text
  {
    var w := name + "=" + text;
    var k := Find(w, '=');
    assert forall i :: 0 <= i < |name| ==> w[i] == name[i] != '=';
    assert w[|name|] == '=';
    assert k == |name|;
  }

  lemma NamesAreApart()
    ensures forall name :: name in KEY_NAMES + SESSION_NAMES + SRC_NAMES ==> '=' !in name
    ensures KEY_NAMES !! SESSION_NAMES !! SRC_NAMES
  {
  }

  /** What an assignment does to the fields. */
  lemma NameIsAssigned(name: string, text: string, fields: Fields)
    requires '=' !in name
    ensures Assigned(fields, name + "=" + text) ==
            if name in KEY_NAMES then fields.(key := text)
            else if name in SESSION_NAMES then fields.(session := text)
            else if name in SRC_NAMES then fields.(src := text)
            else fields
  {
    NameIsFound(name, text);
  }

  /** A word without "=" counts only while no key is known. */
  lemma BareWordIsAssigned(w: string, fields: Fields)
    requires '=' !in w
    ensures Assigned(fields, w) == if fields.key == "" then fields.(key := w) else fields
  {
    assert Find(w, '=') == |w|;
  }

  /** Of several assignments to a field the last one stays. */
  lemma {:induction false} LastAssignmentStays(words: seq<string>, name: string, text: string, bare: seq<string>)
    requires name in KEY_NAMES && text != "" && forall w :: w in bare ==> '=' !in w
    ensures FieldsOf(words + [name + "=" + text] + bare).key == text
    decreases |bare|
  {
    hide Assigned;
    NamesAreApart();
    var all := words + [name + "=" + text] + bare;
    if bare == [] {
      assert all[..|all| - 1] == words;
      NameIsAssigned(name, text, FieldsOf(words));
    } else {
      var n := |bare| - 1;
      assert all[..|all| - 1] == words + [name + "=" + text] + bare[..n];
      LastAssignmentStays(words, name, text, bare[..n]);
      BareWordIsAssigned(bare[n], FieldsOf(all[..|all| - 1]));
    }
  }

  lemma KeyIsAssigned(w: string, fields: Fields, key: seq<Byte>)
    requires |key| == KEY_LENGTH && IsKeyWord(w, key) && (fields.key == "" || KeyBytes(fields.key) == Some(key))
    ensures var next := Assigned(fields, w);
            next == fields.(key := next.key) && next.key != "" && KeyBytes(next.key) == Some(key)
  {
    if '=' !in w && Prints(HexDigitsOf(w), key) {
      KeyIsRead(w, key);
      assert Find(w, '=') == |w|;
    } else {
      var text :| Named(w, KEY_NAMES, text) && Prints(HexDigitsOf(text), key);
      var name :| name in KEY_NAMES && w == name + "=" + text;
      NamesAreApart();
      NameIsAssigned(name, text, fields);
      KeyIsRead(text, key);
    }
  }

  lemma SessionIsAssigned(w: string, fields: Fields, n: nat)
    requires IsNumberWord(w, SESSION_NAMES, n)
    ensures var next := Assigned(fields, w);
            next == fields.(session := next.session) && IsNumeral(next.session, n)
  {
    hide IsNumeral, Assigned;
    var text :| Named(w, SESSION_NAMES, text) && IsNumeral(text, n);
    var name :| name in SESSION_NAMES && w == name + "=" + text;
    NamesAreApart();
    NameIsAssigned(name, text, fields);
  }

  lemma SrcIsAssigned(w: string, fields: Fields, n: nat)
    requires IsNumberWord(w, SRC_NAMES, n)
    ensures var next := Assigned(fields, w);
            next == fields.(src := next.src) && IsNumeral(next.src, n)
  {
    hide IsNumeral, Assigned;
    var text :| Named(w, SRC_NAMES, text) && IsNumeral(text, n);
    var name :| name in SRC_NAMES && w == name + "=" + text;
    NamesAreApart();
    NameIsAssigned(name, text, fields);
  }

  lemma ForeignIsIgnored(w: string, fields: Fields)
    requires IsForeignWord(w)
    ensures Assigned(fields, w) == fields
  {
  }

  /** After some of the words, a field is either empty or printed, and empty only without a word for it. */
  ghost predicate ReadSoFar(fields: Fields, words: seq<string>, hint: Hint) {
    && (fields.key != "" ==> KeyBytes(fields.key) == Some(hint.key))
    && (fields.session != "" ==> hint.keyId.Some? && IsNumeral(fields.session, hint.keyId.value))
    && (fields.src != "" ==> hint.srcNodeId.Some? && IsNumeral(fields.src, hint.srcNodeId.value))
    && (forall w :: w in words && IsKeyWord(w, hint.key) ==> fields.key != "")
    && (forall w :: w in words && IsSessionWord(w, hint) ==> fields.session != "")
    && (forall w :: w in words && IsSrcWord(w, hint) ==> fields.src != "")
  }

  lemma {:induction false} FieldsAreRead(words: seq<string>, hint: Hint)
    requires |hint.key| == KEY_LENGTH
    requires forall w :: w in words ==>
               IsKeyWord(w, hint.key) || IsSessionWord(w, hint) || IsSrcWord(w, hint) || IsForeignWord(w)
    ensures ReadSoFar(FieldsOf(words), words, hint)
  {
    hide IsKeyWord, IsSessionWord, IsSrcWord, IsForeignWord, Assigned, KeyBytes, IsNumeral;
    if words != [] {
      var n := |words| - 1;
      var w := words[n];
      FieldsAreRead(words[..n], hint);
      OneMore(FieldsOf(words[..n]), words[..n], w, hint);
      assert words == words[..n] + [w];
    }
  }

  lemma OneMore(fields: Fields, words: seq<string>, w: string, hint: Hint)
    requires |hint.key| == KEY_LENGTH && ReadSoFar(fields, words, hint)
    requires IsKeyWord(w, hint.key) || IsSessionWord(w, hint) || IsSrcWord(w, hint) || IsForeignWord(w)
    ensures ReadSoFar(Assigned(fields, w), words + [w], hint)
  {
    hide IsKeyWord, IsNumberWord, IsForeignWord, Assigned, KeyBytes, IsNumeral;
    if IsKeyWord(w, hint.key) {
      KeyIsAssigned(w, fields, hint.key);
    }
    if IsSessionWord(w, hint) {
      SessionIsAssigned(w, fields, hint.keyId.value);
      NumeralIsText(Assigned(fields, w).session, hint.keyId.value);
    }
    if IsSrcWord(w, hint) {
      SrcIsAssigned(w, fields, hint.srcNodeId.value);
      NumeralIsText(Assigned(fields, w).src, hint.srcNodeId.value);
    }
    if IsForeignWord(w) {
      ForeignIsIgnored(w, fields);
    }
  }

  lemma NumeralIsText(t: string, n: nat)
    requires IsNumeral(t, n)
    ensures t != ""
  {
  }

  /** A printed hint is read back from any such line. */
  lemma HintLineRoundTrip(hint: Hint, words: seq<string>, gaps: seq<string>, comment: string)
    requires |hint.key| == KEY_LENGTH
    requires hint.keyId.Some? ==> hint.keyId.value <= 0xFFFF
    requires hint.srcNodeId.Some? ==> hint.srcNodeId.value <= UINT64_MAX
    requires (forall w :: w in words ==> IsWord(w)) && PrintsHint(words, hint)
    requires WellSpaced(words, gaps) && IsComment(comment)
    ensures ParseHintLine(Joined(words, gaps) + comment) == Some(hint)
  {
    hide IsWord, Joined, IsComment, IsKeyWord, IsNumberWord, IsForeignWord, Tokens, FieldsOf, Find, IsNumeral,
         KeyBytes, ParseUIntAuto;
    var line := Joined(words, gaps);
    NoCommentInside(words, gaps);
    CutAtComment(line, comment);
    WordsAreRead(words, gaps);
    FieldsAreRead(words, hint);
    var fields := FieldsOf(words);
    if hint.keyId.Some? {
      NumeralIsRead(fields.session, hint.keyId.value);
    }
    if hint.srcNodeId.Some? {
      NumeralIsRead(fields.src, hint.srcNodeId.value);
    }
    EmptyIsNoNumber();
  }

  /** A session id has 16 bits; a larger one is ignored. */
  lemma SessionIsBounded(t: string, n: nat)
    requires IsNumeral(t, n)
    ensures SessionOf(t) == if n <= 0xFFFF then Some(n) else None
  {
    hide ParseUIntAuto, IsNumeral;
    NumeralIsRead(t, n);
  }

  lemma EmptyIsNoNumber()
    ensures ParseUIntAuto("").None?
  {
  }
}
