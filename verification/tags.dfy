/** The two JSDoc tag patterns, written as deterministic matchers that
    return what JavaScript's `String.prototype.match` returns for them:
    the leftmost match, and within it the captures that the backtracking
    order of the pattern selects.

      parameter tag: `@param\s+(?:{([^}]+)})?\s*(\w+)(?:\s*-\s*(.+))?`
      return tag:    `@returns?\s+(?:{([^}]+)})?\s*(.*)`

    `\s` is `Strings.IsSpace`, `\w` is `Strings.IsWordChar`, and `.` is
    any character but a line terminator. Greedy repetition that backtracks
    only ever gives characters back to a later item that can use them, so
    each item below takes the longest run it can, except where a comment
    says otherwise. */
module Tags {
  import opened Strings
  import opened Records

  /** White-space characters starting at `k`. */
  function SpaceAt(s: string, k: nat): (n: nat)
    requires k <= |s|
    ensures k + n <= |s|
    ensures forall j :: k <= j < k + n ==> IsSpace(s[j])
    ensures k + n < |s| ==> !IsSpace(s[k + n])
  {
    var n := LeadingSpace(s[k..]);
    assert forall j :: k <= j < k + n ==> s[j] == s[k..][j - k];
    n
  }

  /** The end of the run of word characters starting at `k`. */
  function WordEnd(s: string, k: nat): (e: nat)
    requires k <= |s|
    ensures k <= e <= |s|
    ensures forall j :: k <= j < e ==> IsWordChar(s[j])
    ensures e < |s| ==> !IsWordChar(s[e])
    decreases |s| - k
  {
    if k < |s| && IsWordChar(s[k]) then WordEnd(s, k + 1) else k
  }

  /** The end of the line that contains index `k`. */
  function LineEnd(s: string, k: nat): (e: nat)
    requires k <= |s|
    ensures k <= e <= |s|
    ensures forall j :: k <= j < e ==> !IsLineTerminator(s[j])
    ensures e < |s| ==> IsLineTerminator(s[e])
    decreases |s| - k
  {
    if k < |s| && !IsLineTerminator(s[k]) then LineEnd(s, k + 1) else k
  }

  /** The first `}` at or after `k`. */
  function FindClose(s: string, k: nat): (r: Option<nat>)
    requires k <= |s|
    ensures r.Some? ==> k <= r.value < |s| && s[r.value] == '}'
                        && forall j :: k <= j < r.value ==> s[j] != '}'
    ensures r.None? ==> forall j :: k <= j < |s| ==> s[j] != '}'
    decreases |s| - k
  {
    if k == |s| then None
    else if s[k] == '}' then Some(k)
    else FindClose(s, k + 1)
  }

  /** A match of `{([^}]+)}`: the braced text and the index after `}`. */
  datatype Braced = Braced(text: string, end: nat)

  function BracedAt(s: string, k: nat): (r: Option<Braced>)
    requires k <= |s|
    ensures r.Some? ==> k + 2 < r.value.end <= |s| && s[k] == '{' && s[r.value.end - 1] == '}'
                        && r.value.text == s[k + 1..r.value.end - 1]
                        && r.value.text != [] && '}' !in r.value.text
    ensures r.None? ==> k == |s| || s[k] != '{' || (k + 1 < |s| && s[k + 1] == '}')
                        || forall j :: k < j < |s| ==> s[j] != '}'
  {
    if k < |s| && s[k] == '{' then
      match FindClose(s, k + 1)
      case Some(m) =>
        if m > k + 1 then
          assert forall j :: k + 1 <= j < m ==> s[k + 1..m][j - k - 1] == s[j];
          Some(Braced(s[k + 1..m], m + 1))
        else None
      case None => None
    else None
  }

  /** Where `\s*(.+)` at `q` lets `(.+)` start: the white space is taken
      greedily up to `hi` and given back one character at a time until
      `(.+)` finds a character that is not a line terminator. */
  function RestStart(s: string, q: nat, hi: nat): (r: Option<nat>)
    requires q <= hi <= |s|
    ensures r.Some? ==> q <= r.value <= hi && r.value < |s| && !IsLineTerminator(s[r.value])
                        && forall y :: r.value < y <= hi && y < |s| ==> IsLineTerminator(s[y])
    ensures r.None? ==> forall y :: q <= y <= hi && y < |s| ==> IsLineTerminator(s[y])
    decreases hi - q
  {
    if hi < |s| && !IsLineTerminator(s[hi]) then Some(hi)
    else if hi == q then None
    else RestStart(s, q, hi - 1)
  }

  /** `(?:\s*-\s*(.+))?` after a parameter name that ends at `p`. */
  function DashDescription(s: string, p: nat): (r: Option<string>)
    requires p <= |s|
    ensures r.Some? ==> r.value != [] && forall c :: c in r.value ==> !IsLineTerminator(c)
  {
    var a := p + SpaceAt(s, p);
    if a < |s| && s[a] == '-' then
      var q := a + 1;
      match RestStart(s, q, q + SpaceAt(s, q))
      case Some(y) =>
        var e := LineEnd(s, y);
        assert forall c :: c in s[y..e] ==> !IsLineTerminator(c);
        Some(s[y..e])
      case None => None
    else None
  }

  /** The captures of the parameter pattern: type, name, dash description. */
  datatype ParamMatch = ParamMatch(typeText: Option<string>, name: string, description: Option<string>)

  /** A sound parameter match: a non-empty word as the name, a non-empty
      type without `}`, a non-empty one-line description. */
  predicate ValidParamMatch(m: ParamMatch) {
    && m.name != [] && (forall c :: c in m.name ==> IsWordChar(c))
    && (m.typeText.Some? ==> m.typeText.value != [] && '}' !in m.typeText.value)
    && (m.description.Some? ==>
          m.description.value != [] && forall c :: c in m.description.value ==> !IsLineTerminator(c))
  }

  /** `\s*(\w+)(?:\s*-\s*(.+))?` with the white space already consumed. */
  function NameAt(s: string, k: nat, typeText: Option<string>): (r: Option<ParamMatch>)
    requires k <= |s|
    requires typeText.Some? ==> typeText.value != [] && '}' !in typeText.value
    ensures r.Some? ==> ValidParamMatch(r.value) && r.value.typeText == typeText
  {
    var e := WordEnd(s, k);
    if e == k then None
    else
      assert forall c :: c in s[k..e] ==> IsWordChar(c);
      Some(ParamMatch(typeText, s[k..e], DashDescription(s, e)))
  }

  /** The parameter pattern anchored at `i`. The braced type is tried
      first; when no name follows it, the type is skipped, which leaves a
      `{` where the name must start. */
  function ParamAt(s: string, i: nat): (r: Option<ParamMatch>)
    requires i <= |s|
    ensures r.Some? ==> ValidParamMatch(r.value) && OccursAt(s, "@param", i)
  {
    if !StartsWith(s[i..], "@param") then None
    else
      assert s[i..i + 6] == s[i..][..6];
      var j := i + 6;
      var w := SpaceAt(s, j);
      if w == 0 then None
      else
        var k := j + w;
        var typed :=
          match BracedAt(s, k)
          case Some(b) => NameAt(s, b.end + SpaceAt(s, b.end), Some(b.text))
          case None => None;
        if typed.Some? then typed else NameAt(s, k, None)
  }

  function SearchParam(s: string, i: nat): (r: Option<ParamMatch>)
    requires i <= |s|
    ensures r.Some? ==> ValidParamMatch(r.value) && exists j :: i <= j && OccursAt(s, "@param", j)
    decreases |s| - i
  {
    var m := ParamAt(s, i);
    if m.Some? then m else if i == |s| then None else SearchParam(s, i + 1)
  }

  /** `text.match(parameter pattern)`: `None` when nothing matches. */
  function MatchParam(s: string): (r: Option<ParamMatch>)
    ensures r.Some? ==> ValidParamMatch(r.value) && Contains(s, "@param")
  {
    SearchParam(s, 0)
  }

  /** The captures of the return pattern: type and the rest of the line. */
  datatype ReturnMatch = ReturnMatch(typeText: Option<string>, description: string)

  /** Sound return captures: a non-empty type without `}` and a
      description on one line. */
  predicate ValidReturnMatch(m: ReturnMatch) {
    && (m.typeText.Some? ==> m.typeText.value != [] && '}' !in m.typeText.value)
    && forall c :: c in m.description ==> !IsLineTerminator(c)
  }

  /** The rest of the line from `d`. */
  function LineFrom(s: string, d: nat): (r: string)
    requires d <= |s|
    ensures forall c :: c in r ==> !IsLineTerminator(c)
  {
    var e := LineEnd(s, d);
    assert forall j :: d <= j < e ==> s[d..e][j - d] == s[j];
    s[d..e]
  }

  /** `(?:{([^}]+)})?\s*(.*)` once the white space after the keyword is
      consumed up to `k`. */
  function ReturnRest(s: string, k: nat): (r: ReturnMatch)
    requires k <= |s|
    ensures ValidReturnMatch(r)
  {
    match BracedAt(s, k)
    case Some(b) => ReturnMatch(Some(b.text), LineFrom(s, b.end + SpaceAt(s, b.end)))
    case None => ReturnMatch(None, LineFrom(s, k))
  }

  /** `\s+(?:{([^}]+)})?\s*(.*)` after a keyword that ends at `k`:
      nothing without white space at `k`. */
  function ReturnFrom(s: string, k: nat): (r: Option<ReturnMatch>)
    requires k <= |s|
    ensures SpaceAt(s, k) == 0 ==> r.None?
    ensures SpaceAt(s, k) > 0 ==> r == Some(ReturnRest(s, k + SpaceAt(s, k)))
  {
    var w := SpaceAt(s, k);
    if w == 0 then None else Some(ReturnRest(s, k + w))
  }

  /** The return pattern anchored at `i`. `s?` is tried with the `s`
      first; without white space after it, it is tried without, which
      leaves the `s` where the white space must be. */
  function ReturnAt(s: string, i: nat): (r: Option<ReturnMatch>)
    requires i <= |s|
    ensures r.Some? ==> OccursAt(s, "@return", i) && ValidReturnMatch(r.value)
    ensures OccursAt(s, "@returns", i) && SpaceAt(s, i + 8) > 0 ==> r == ReturnFrom(s, i + 8)
    ensures OccursAt(s, "@return", i) && !(OccursAt(s, "@returns", i) && SpaceAt(s, i + 8) > 0) ==> r == ReturnFrom(s, i + 7)
  {
    if !OccursAt(s, "@return", i) then
      ReturnsHasReturn(s, i);
      None
    else if OccursAt(s, "@returns", i) && SpaceAt(s, i + 8) > 0 then ReturnFrom(s, i + 8)
    else ReturnFrom(s, i + 7)
  }

  /** `@returns` begins with `@return`. */
  lemma ReturnsHasReturn(s: string, i: int)
    ensures OccursAt(s, "@returns", i) ==> OccursAt(s, "@return", i)
  {
    if OccursAt(s, "@returns", i) {
      assert s[i..i + 7] == s[i..i + 8][..7];
    }
  }

  function SearchReturn(s: string, i: nat): (r: Option<ReturnMatch>)
    requires i <= |s|
    ensures r.Some? ==> ValidReturnMatch(r.value) && exists j :: i <= j && OccursAt(s, "@return", j)
    decreases |s| - i
  {
    var m := ReturnAt(s, i);
    if m.Some? then m else if i == |s| then None else SearchReturn(s, i + 1)
  }

  /** `text.match(return pattern)`: `None` when nothing matches. */
  function MatchReturn(s: string): (r: Option<ReturnMatch>)
    ensures r.Some? ==> ValidReturnMatch(r.value) && Contains(s, "@return")
  {
    SearchReturn(s, 0)
  }

  lemma SpaceAtOne(s: string, k: nat)
    requires k < |s| && IsSpace(s[k]) && (k + 1 == |s| || !IsSpace(s[k + 1]))
    ensures SpaceAt(s, k) == 1
  {
  }

  lemma {:induction false} FindCloseAt(s: string, k: nat, m: nat)
    requires k <= m < |s| && s[m] == '}' && forall j :: k <= j < m ==> s[j] != '}'
    ensures FindClose(s, k) == Some(m)
    decreases m - k
  {
    if k < m {
      FindCloseAt(s, k + 1, m);
    }
  }

  lemma {:induction false} WordEndAt(s: string, k: nat, e: nat)
    requires k <= e <= |s| && (forall j :: k <= j < e ==> IsWordChar(s[j])) && (e < |s| ==> !IsWordChar(s[e]))
    ensures WordEnd(s, k) == e
    decreases e - k
  {
    if k < e {
      WordEndAt(s, k + 1, e);
    }
  }

  lemma {:induction false} LineEndAt(s: string, k: nat)
    requires k <= |s| && forall j :: k <= j < |s| ==> !IsLineTerminator(s[j])
    ensures LineEnd(s, k) == |s|
    decreases |s| - k
  {
    if k < |s| {
      LineEndAt(s, k + 1);
    }
  }

  /** The pieces of `@param {T} name - text`. */
  lemma ParamLayout(t: string, name: string, text: string)
    ensures var s := "@param {" + t + "} " + name + " - " + text;
            var close := 8 + |t|;
            var k := close + 2;
            var e := k + |name|;
            && |s| == e + 3 + |text|
            && s[..6] == "@param" && s[6] == ' ' && s[7] == '{' && s[8..close] == t
            && s[close] == '}' && s[close + 1] == ' '
            && s[k..e] == name && s[e..e + 3] == " - " && s[e + 3..] == text
  {
  }

  /** `{t}` at `k`. */
  lemma BracedAtLayout(s: string, k: nat, t: string)
    requires t != [] && '}' !in t
    requires k + |t| + 2 <= |s| && s[k] == '{' && s[k + 1..k + 1 + |t|] == t && s[k + 1 + |t|] == '}'
    ensures BracedAt(s, k) == Some(Braced(t, k + |t| + 2))
  {
    var m := k + 1 + |t|;
    forall j | k + 1 <= j < m ensures s[j] != '}' {
      assert s[j] == s[k + 1..m][j - k - 1];
    }
    FindCloseAt(s, k + 1, m);
  }

  /** ` - text` at `e`, the text running to the end of `s`. */
  lemma DashLayout(s: string, e: nat, text: string)
    requires text != [] && !IsSpace(text[0]) && forall c :: c in text ==> !IsLineTerminator(c)
    requires e + 3 + |text| == |s| && s[e..e + 3] == " - " && s[e + 3..] == text
    ensures DashDescription(s, e) == Some(text)
  {
    var q := e + 3;
    assert s[e] == ' ' && s[e + 1] == '-' && s[e + 2] == ' ' by {
      assert s[e] == s[e..e + 3][0] && s[e + 1] == s[e..e + 3][1] && s[e + 2] == s[e..e + 3][2];
    }
    assert s[q] == text[0];
    SpaceAtOne(s, e);
    SpaceAtOne(s, e + 2);
    assert RestStart(s, e + 2, q) == Some(q);
    forall j | q <= j < |s| ensures !IsLineTerminator(s[j]) {
      assert s[j] == text[j - q];
    }
    LineEndAt(s, q);
    assert s[q..LineEnd(s, q)] == text;
  }

  /** `name - text` at `k`. */
  lemma NameLayout(s: string, k: nat, typeText: string, name: string, text: string)
    requires typeText != [] && '}' !in typeText
    requires name != [] && forall c :: c in name ==> IsWordChar(c)
    requires text != [] && !IsSpace(text[0]) && forall c :: c in text ==> !IsLineTerminator(c)
    requires var e := k + |name|;
             e + 3 + |text| == |s| && s[k..e] == name && s[e..e + 3] == " - " && s[e + 3..] == text
    ensures NameAt(s, k, Some(typeText)) == Some(ParamMatch(Some(typeText), name, Some(text)))
  {
    var e := k + |name|;
    forall j | k <= j < e ensures IsWordChar(s[j]) {
      assert s[j] == s[k..e][j - k];
    }
    assert s[e] == s[e..e + 3][0];
    WordEndAt(s, k, e);
    DashLayout(s, e, text);
  }

  /** The parameter pattern over a string laid out as `ParamLayout` says. */
  lemma ParamAtLayout(s: string, t: string, name: string, text: string)
    requires t != [] && '}' !in t
    requires name != [] && forall c :: c in name ==> IsWordChar(c)
    requires text != [] && !IsSpace(text[0]) && forall c :: c in text ==> !IsLineTerminator(c)
    requires var close := 8 + |t|; var k := close + 2; var e := k + |name|;
             && |s| == e + 3 + |text|
             && s[..6] == "@param" && s[6] == ' ' && s[7] == '{' && s[8..close] == t
             && s[close] == '}' && s[close + 1] == ' '
             && s[k..e] == name && s[e..e + 3] == " - " && s[e + 3..] == text
    ensures ParamAt(s, 0) == Some(ParamMatch(Some(t), name, Some(text)))
  {
    var close := 8 + |t|;
    var k := close + 2;
    assert s[k] == name[0] by {
      assert s[k] == s[k..k + |name|][0];
    }
    assert !IsSpace(s[k]) by {
      assert name[0] in name;
    }
    assert BracedAt(s, 7) == Some(Braced(t, close + 1)) by {
      BracedAtLayout(s, 7, t);
    }
    assert NameAt(s, k, Some(t)) == Some(ParamMatch(Some(t), name, Some(text))) by {
      NameLayout(s, k, t, name, text);
    }
    ParamHead(s, t);
  }

  /** `@param {T} ` at the start, with a name matched after it: the
      typed alternative is the match. */
  lemma ParamHead(s: string, t: string)
    requires var close := 8 + |t|;
             && close + 2 < |s|
             && s[..6] == "@param" && s[6] == ' ' && s[7] == '{'
             && s[close + 1] == ' ' && !IsSpace(s[close + 2])
             && BracedAt(s, 7) == Some(Braced(t, close + 1))
             && NameAt(s, close + 2, Some(t)).Some?
    ensures ParamAt(s, 0) == NameAt(s, 8 + |t| + 2, Some(t))
  {
    var close := 8 + |t|;
    assert StartsWith(s[0..], "@param") by {
      assert s[0..][..6] == s[..6];
    }
    SpaceAtOne(s, 6);
    SpaceAtOne(s, close + 1);
  }

  /** A parameter tag written the documented way, `@param {T} name - text`,
      yields its type, name and text. */
  lemma ParamTagRoundTrip(t: string, name: string, text: string)
    requires t != [] && '}' !in t
    requires name != [] && forall c :: c in name ==> IsWordChar(c)
    requires text != [] && !IsSpace(text[0]) && forall c :: c in text ==> !IsLineTerminator(c)
    ensures MatchParam("@param {" + t + "} " + name + " - " + text)
            == Some(ParamMatch(Some(t), name, Some(text)))
  {
    var s := "@param {" + t + "} " + name + " - " + text;
    ParamLayout(t, name, text);
    ParamAtLayout(s, t, name, text);
  }

  /** The pieces of `@returns {T} text` (or `@return {T} text`). */
  lemma ReturnLayout(head: string, t: string, text: string)
    ensures var s := head + t + "} " + text;
            var close := |head| + |t|;
            && |s| == close + 2 + |text|
            && s[..|head|] == head && s[|head|..close] == t && s[close..close + 2] == "} "
            && s[close + 2..] == text
  {
  }

  /** `@return {` or `@returns {` at the start: the rest is matched from
      the brace. */
  lemma ReturnHead(s: string, plural: bool)
    requires var head := if plural then "@returns {" else "@return {";
             |head| <= |s| && s[..|head|] == head
    ensures var head := if plural then "@returns {" else "@return {";
            ReturnAt(s, 0) == Some(ReturnRest(s, |head| - 1))
  {
    var head := if plural then "@returns {" else "@return {";
    var open := |head| - 1;
    assert s[..7] == head[..7] == "@return";
    assert StartsWith(s[0..], "@return") by {
      assert s[0..] == s;
    }
    assert s[open - 1] == head[open - 1] == ' ' && s[open] == head[open] == '{';
    SpaceAtOne(s, open - 1);
    if plural {
      assert s[7] == head[7] == 's';
    } else {
      assert s[7] == head[7] == ' ';
    }
  }

  /** `{T} text` at `k`, the text running to the end of `s`. */
  lemma ReturnRestLayout(s: string, k: nat, t: string, text: string)
    requires t != [] && '}' !in t
    requires (text != [] ==> !IsSpace(text[0])) && forall c :: c in text ==> !IsLineTerminator(c)
    requires var close := k + 1 + |t|;
             && |s| == close + 2 + |text|
             && s[k] == '{' && s[k + 1..close] == t && s[close..close + 2] == "} "
             && s[close + 2..] == text
    ensures ReturnRest(s, k) == ReturnMatch(Some(t), text)
  {
    var close := k + 1 + |t|;
    var d := close + 2;
    assert s[close] == s[close..close + 2][0] && s[close + 1] == s[close..close + 2][1];
    BracedAtLayout(s, k, t);
    SpaceAtOne(s, close + 1);
    if text != [] {
      assert s[d] == text[0];
    }
    forall j | d <= j < |s| ensures !IsLineTerminator(s[j]) {
      assert s[j] == text[j - d];
    }
    LineEndAt(s, d);
    assert LineFrom(s, d) == text;
  }

  /** A return tag written the documented way, `@returns {T} text` (or
      `@return`), yields its type and text. */
  lemma ReturnTagRoundTrip(plural: bool, t: string, text: string)
    requires t != [] && '}' !in t
    requires (text != [] ==> !IsSpace(text[0])) && forall c :: c in text ==> !IsLineTerminator(c)
    ensures MatchReturn((if plural then "@returns {" else "@return {") + t + "} " + text)
            == Some(ReturnMatch(Some(t), text))
  {
    var head := if plural then "@returns {" else "@return {";
    var s := head + t + "} " + text;
    assert ReturnAt(s, 0) == Some(ReturnRest(s, |head| - 1)) by {
      ReturnLayout(head, t, text);
      ReturnHead(s, plural);
    }
    ReturnRestOf(head, t, text);
  }

  /** `{T} text` after a head that ends in the brace. */
  lemma ReturnRestOf(head: string, t: string, text: string)
    requires head != [] && head[|head| - 1] == '{'
    requires t != [] && '}' !in t
    requires (text != [] ==> !IsSpace(text[0])) && forall c :: c in text ==> !IsLineTerminator(c)
    ensures ReturnRest(head + t + "} " + text, |head| - 1) == ReturnMatch(Some(t), text)
  {
    var s := head + t + "} " + text;
    ReturnLayout(head, t, text);
    assert s[|head| - 1] == head[|head| - 1];
    ReturnRestLayout(s, |head| - 1, t, text);
  }
}
