/** Media-type names in the restricted-name shape of RFC 6838 section 4.2:
    one letter or digit, then up to 126 more characters from a fixed set,
    with an optional structured-syntax suffix after the last `+`
    (RFC 6838 section 4.2.8). The three regular expressions of the
    media-typer module (`TYPE_NAME_REGEXP`, `SUBTYPE_NAME_REGEXP`,
    `TYPE_REGEXP`) become character-class predicates with a length bound. */
module MediaTypes {
  import opened Results

  datatype MediaType = MediaType(typ: string, subtype: string, suffix: Option<string>)

  /** The character classes allowed after the first character of a name. */
  datatype NameClass =
    | TypeNameClass     // [A-Za-z0-9!#$&^_-]
    | SubtypeNameClass  // [A-Za-z0-9!#$&^_.-]
    | SubtypeGroupClass // [A-Za-z0-9!#$&^_.+-]

  predicate IsAlnum(c: char) {
    ('A' <= c <= 'Z') || ('a' <= c <= 'z') || ('0' <= c <= '9')
  }

  predicate InClass(c: char, cls: NameClass) {
    || IsAlnum(c)
    || c == '!' || c == '#' || c == '$' || c == '&' || c == '^' || c == '_' || c == '-'
    || (c == '.' && !cls.TypeNameClass?)
    || (c == '+' && cls.SubtypeGroupClass?)
  }

  /** A letter or digit followed by 0 to 126 characters of class `cls`. */
  predicate IsRestrictedName(s: string, cls: NameClass) {
    && 1 <= |s| <= 127
    && IsAlnum(s[0])
    && forall i :: 1 <= i < |s| ==> InClass(s[i], cls)
  }

  /** `TYPE_NAME_REGEXP`. */
  predicate IsTypeName(s: string) {
    IsRestrictedName(s, TypeNameClass)
  }

  /** `SUBTYPE_NAME_REGEXP`. */
  predicate IsSubtypeName(s: string) {
    IsRestrictedName(s, SubtypeNameClass)
  }

  /** The second capture group of `TYPE_REGEXP`. */
  predicate IsSubtypeGroup(s: string) {
    IsRestrictedName(s, SubtypeGroupClass)
  }

  predicate AllSpaces(s: string) {
    forall i :: 0 <= i < |s| ==> s[i] == ' '
  }

  /** What `TYPE_REGEXP` accepts: optional spaces, a type name, `/`, a
      subtype group, optional spaces. `t` and `g` are its two captures. */
  ghost predicate MatchesTypeRegexp(s: string, t: string, g: string) {
    && IsTypeName(t)
    && IsSubtypeGroup(g)
    && exists lead, trail :: AllSpaces(lead) && AllSpaces(trail) && s == lead + t + "/" + g + trail
  }

  /** U+212A KELVIN SIGN, the one character outside ASCII whose lower-case
      form is a single ASCII character (`k`). */
  const KelvinSign: char := '\U{212A}'

  /** A character that lower-casing leaves alone as far as the regular
      expressions can tell: not `A`-`Z` and not the Kelvin sign. */
  predicate LowerChar(c: char) {
    !('A' <= c <= 'Z') && c != KelvinSign
  }

  /** `toLowerCase` restricted to what the regular expressions can see:
      `A`-`Z` and the Kelvin sign map to ASCII letters; every other
      character either has no lower-case form or one outside ASCII, which no
      expression accepts before or after the mapping. */
  function ToLowerChar(c: char): (r: char)
    ensures LowerChar(r)
    ensures 'A' <= c <= 'Z' ==> 'a' <= r <= 'z' && r as int == c as int + 32
    ensures c == KelvinSign ==> r == 'k'
    ensures LowerChar(c) ==> r == c
  {
    if 'A' <= c <= 'Z' then (c as int - 'A' as int + 'a' as int) as char
    else if c == KelvinSign then 'k'
    else c
  }

  function ToLower(s: string): (r: string)
    ensures |r| == |s|
  {
    if |s| == 0 then [] else [ToLowerChar(s[0])] + ToLower(s[1..])
  }

  lemma {:induction false} ToLowerAt(s: string)
    ensures forall i :: 0 <= i < |s| ==> ToLower(s)[i] == ToLowerChar(s[i])
  {
    if |s| > 0 {
      ToLowerAt(s[1..]);
    }
  }

  predicate IsLower(s: string) {
    forall i :: 0 <= i < |s| ==> LowerChar(s[i])
  }

  predicate SuffixIsLower(o: Option<string>) {
    o.None? || IsLower(o.value)
  }

  /** Drops the leading spaces: the result is a suffix of `s` that does not
      start with a space, and everything dropped was a space. */
  function StripLeadingSpaces(s: string): (r: string)
    ensures |r| <= |s|
  {
    if |s| > 0 && s[0] == ' ' then StripLeadingSpaces(s[1..]) else s
  }

  lemma {:induction false} StripLeadingFacts(s: string)
    ensures var r := StripLeadingSpaces(s);
      && r == s[|s| - |r|..]
      && AllSpaces(s[..|s| - |r|])
      && (|r| == 0 || r[0] != ' ')
  {
    if |s| > 0 && s[0] == ' ' {
      StripLeadingFacts(s[1..]);
      var r := StripLeadingSpaces(s);
      assert s[1..][|s| - 1 - |r|..] == s[|s| - |r|..];
      var dropped := s[..|s| - |r|];
      forall k | 0 <= k < |dropped| ensures dropped[k] == ' ' {
        if k > 0 { assert dropped[k] == s[1..][..|s| - 1 - |r|][k - 1]; }
      }
    }
  }

  /** Drops the trailing spaces: the result is a prefix of `s` that does not
      end with a space, and everything dropped was a space. */
  function StripTrailingSpaces(s: string): (r: string)
    ensures |r| <= |s|
  {
    if |s| > 0 && s[|s| - 1] == ' ' then StripTrailingSpaces(s[..|s| - 1]) else s
  }

  lemma {:induction false} StripTrailingFacts(s: string)
    ensures var r := StripTrailingSpaces(s);
      && r == s[..|r|]
      && AllSpaces(s[|r|..])
      && (|r| == 0 || r[|r| - 1] != ' ')
  {
    if |s| > 0 && s[|s| - 1] == ' ' {
      StripTrailingFacts(s[..|s| - 1]);
      var r := StripTrailingSpaces(s);
      assert s[..|s| - 1][..|r|] == s[..|r|];
      var dropped := s[|r|..];
      forall k | 0 <= k < |dropped| ensures dropped[k] == ' ' {
        if k < |dropped| - 1 { assert dropped[k] == s[..|s| - 1][|r|..][k]; }
      }
    }
  }

  /** `indexOf` of a single character: -1 when absent, else its first index. */
  function FirstIndexOf(s: string, c: char): (r: int)
    ensures -1 <= r < |s|
    ensures r == -1 <==> c !in s
    ensures r >= 0 ==> s[r] == c && forall k :: 0 <= k < r ==> s[k] != c
  {
    if |s| == 0 then -1
    else if s[0] == c then 0
    else
      var k := FirstIndexOf(s[1..], c);
      if k == -1 then -1 else k + 1
  }

  /** `lastIndexOf` of a single character: -1 when absent, else its last index. */
  function LastIndexOf(s: string, c: char): (r: int)
    ensures -1 <= r < |s|
    ensures r == -1 <==> c !in s
    ensures r >= 0 ==> s[r] == c && forall k :: r < k < |s| ==> s[k] != c
  {
    if |s| == 0 then -1
    else if s[|s| - 1] == c then |s| - 1
    else LastIndexOf(s[..|s| - 1], c)
  }

  /** The subtype group split at its last `+` into subtype and suffix. */
  function SplitSuffix(g: string): (m: (string, Option<string>))
    ensures '+' !in g ==> m == (g, None)
    ensures '+' in g ==> m.1.Some? && g == m.0 + "+" + m.1.value && '+' !in m.1.value
  {
    var idx := LastIndexOf(g, '+');
    if idx == -1 then (g, None)
    else
      assert g == g[..idx] + "+" + g[idx + 1..];
      (g[..idx], Some(g[idx + 1..]))
  }

  /** `format`: validate the parts, then join them as `type/subtype[+suffix]`.
      An absent or empty suffix is left out. */
  function Format(m: MediaType): (r: Result<string>)
    ensures !IsTypeName(m.typ) ==> r == Err("Invalid type.")
    ensures IsTypeName(m.typ) && !IsSubtypeName(m.subtype) ==> r == Err("Invalid subtype.")
    ensures r.Ok? <==>
      IsTypeName(m.typ) && IsSubtypeName(m.subtype) &&
      (m.suffix.None? || m.suffix.value == "" || IsTypeName(m.suffix.value))
    ensures r.Err? && IsTypeName(m.typ) && IsSubtypeName(m.subtype) ==> r == Err("Invalid suffix.")
    ensures r.Ok? ==>
      (r.value == m.typ + "/" + m.subtype +
        (if m.suffix.Some? && m.suffix.value != "" then "+" + m.suffix.value else ""))
  {
    if !IsTypeName(m.typ) then Err("Invalid type.")
    else if !IsSubtypeName(m.subtype) then Err("Invalid subtype.")
    else
      var base := m.typ + "/" + m.subtype;
      if m.suffix.Some? && m.suffix.value != "" then
        if !IsTypeName(m.suffix.value) then Err("Invalid suffix.")
        else Ok(base + "+" + m.suffix.value)
      else Ok(base)
  }

  /** The text `parse` matches against: lower-cased, spaces stripped. */
  function Core(str: string): string {
    StripTrailingSpaces(StripLeadingSpaces(ToLower(str)))
  }

  /** `parse`: lower-case the input, strip the surrounding spaces, split at
      the first `/`, check both parts, then split the suffix off. */
  function Parse(str: string): (r: Result<MediaType>)
    ensures r.Err? ==> r.msg == "Invalid media type."
    ensures r.Ok? ==> IsTypeName(r.value.typ)
    ensures r.Ok? ==> IsLower(r.value.typ) && IsLower(r.value.subtype) && SuffixIsLower(r.value.suffix)
  {
    var core := Core(str);
    var i := FirstIndexOf(core, '/');
    if i == -1 then Err("Invalid media type.")
    else
      var t := core[..i];
      var g := core[i + 1..];
      if !IsTypeName(t) || !IsSubtypeGroup(g) then Err("Invalid media type.")
      else
        CapturesLower(str);
        SplitSuffixLower(g);
        var (sub, suf) := SplitSuffix(g);
        Ok(MediaType(t, sub, suf))
  }

  lemma CoreIsLower(str: string)
    ensures IsLower(Core(str))
  {
    var lo := ToLower(str);
    var left := StripLeadingSpaces(lo);
    var core := StripTrailingSpaces(left);
    ToLowerAt(str);
    StripLeadingFacts(lo);
    StripTrailingFacts(left);
    assert core == left[..|core|];
    assert left == lo[|lo| - |left|..];
    assert forall k :: 0 <= k < |lo| ==> LowerChar(lo[k]);
    forall k | 0 <= k < |core|
      ensures LowerChar(core[k])
    {
      assert core[k] == left[k];
      assert left[k] == lo[|lo| - |left| + k];
    }
  }

  lemma LowerSlice(s: string, i: nat, j: nat)
    requires IsLower(s) && i <= j <= |s|
    ensures IsLower(s[i..j])
  {
    forall k | 0 <= k < j - i ensures LowerChar(s[i..j][k]) {
      assert s[i..j][k] == s[i + k];
    }
  }

  /** Both halves of a split subtype group are slices of the group. */
  lemma SplitSuffixSlices(g: string)
    ensures var idx := LastIndexOf(g, '+');
            if idx == -1 then SplitSuffix(g) == (g, None)
            else SplitSuffix(g) == (g[..idx], Some(g[idx + 1..]))
  {
  }

  /** Splitting a lower-case group gives lower-case parts. */
  lemma SplitSuffixLower(g: string)
    requires IsLower(g)
    ensures IsLower(SplitSuffix(g).0) && SuffixIsLower(SplitSuffix(g).1)
  {
    SplitSuffixSlices(g);
    var idx := LastIndexOf(g, '+');
    if idx != -1 {
      LowerSlice(g, 0, idx);
      assert g[..idx] == g[0..idx];
      LowerSlice(g, idx + 1, |g|);
      assert g[idx + 1..] == g[idx + 1..|g|];
    }
  }

  /** Both captures of a successful parse are lower-case. */
  lemma CapturesLower(str: string)
    requires FirstIndexOf(Core(str), '/') >= 0
    ensures var core := Core(str);
            var i := FirstIndexOf(core, '/');
            IsLower(core[..i]) && IsLower(core[i + 1..])
  {
    var core := Core(str);
    CoreIsLower(str);
    var i := FirstIndexOf(core, '/');
    LowerSlice(core, 0, i);
    assert core[..i] == core[0..i];
    LowerSlice(core, i + 1, |core|);
    assert core[i + 1..] == core[i + 1..|core|];
  }

  lemma {:induction false} StripLeadingOfSpaces(lead: string, x: string)
    requires AllSpaces(lead)
    requires |x| == 0 || x[0] != ' '
    ensures StripLeadingSpaces(lead + x) == x
  {
    if |lead| > 0 {
      assert (lead + x)[1..] == lead[1..] + x;
      StripLeadingOfSpaces(lead[1..], x);
    } else {
      assert lead + x == x;
    }
  }

  lemma {:induction false} StripTrailingOfSpaces(x: string, trail: string)
    requires AllSpaces(trail)
    requires |x| == 0 || x[|x| - 1] != ' '
    ensures StripTrailingSpaces(x + trail) == x
  {
    if |trail| > 0 {
      assert (x + trail)[..|x| + |trail| - 1] == x + trail[..|trail| - 1];
      StripTrailingOfSpaces(x, trail[..|trail| - 1]);
    } else {
      assert x + trail == x;
    }
  }

  lemma NoSlashInTypeName(t: string)
    requires IsTypeName(t)
    ensures forall k :: 0 <= k < |t| ==> t[k] != '/'
  {
    forall k | 0 <= k < |t| ensures t[k] != '/' {
      if k > 0 { assert InClass(t[k], TypeNameClass); }
    }
  }

  /** In `t/g` with a type name `t`, the first `/` is the one right after `t`. */
  lemma FirstSlashAfterType(t: string, g: string)
    requires IsTypeName(t)
    ensures FirstIndexOf(t + "/" + g, '/') == |t|
  {
    var x := t + "/" + g;
    NoSlashInTypeName(t);
    assert x[|t|] == '/';
    assert forall k :: 0 <= k < |t| ==> x[k] == t[k];
  }

  /** A match fixes the captures: the space-stripped text is exactly `t/g`. */
  lemma MatchUnique(s: string, t: string, g: string)
    requires MatchesTypeRegexp(s, t, g)
    ensures StripTrailingSpaces(StripLeadingSpaces(s)) == t + "/" + g
  {
    var lead, trail :| AllSpaces(lead) && AllSpaces(trail) && s == lead + t + "/" + g + trail;
    var x := t + "/" + g;
    var rest := x + trail;
    assert s == lead + rest;
    assert rest[0] == t[0];
    StripLeadingOfSpaces(lead, rest);
    assert x[|x| - 1] == g[|g| - 1];
    StripTrailingOfSpaces(x, trail);
  }

  lemma SplitAround<T>(s: seq<T>, i: nat, x: T)
    requires i < |s| && s[i] == x
    ensures s == s[..i] + [x] + s[i + 1..]
  {
  }

  lemma TakeDrop<T>(s: seq<T>, n: nat)
    requires n <= |s|
    ensures s == s[..n] + s[n..]
  {
  }

  lemma Regroup<T>(a: seq<T>, b: seq<T>, c: seq<T>, d: seq<T>, e: seq<T>)
    ensures a + (b + c + d + e) == a + b + c + d + e
  {
  }

  /** Exhibits a match from its parts. */
  lemma MatchIntro(s: string, lead: string, t: string, g: string, trail: string)
    requires IsTypeName(t) && IsSubtypeGroup(g)
    requires AllSpaces(lead) && AllSpaces(trail)
    requires s == lead + t + "/" + g + trail
    ensures MatchesTypeRegexp(s, t, g)
  {
  }

  /** The lower-cased input is its leading spaces, the core and its
      trailing spaces. */
  lemma LowerDecomposes(str: string)
    ensures var s := ToLower(str);
            var left := StripLeadingSpaces(s);
            var core := Core(str);
            && AllSpaces(s[..|s| - |left|]) && AllSpaces(left[|core|..])
            && s == s[..|s| - |left|] + core + left[|core|..]
  {
    var s := ToLower(str);
    var left := StripLeadingSpaces(s);
    var core := StripTrailingSpaces(left);
    StripLeadingFacts(s);
    StripTrailingFacts(left);
    TakeDrop(left, |core|);
    TakeDrop(s, |s| - |left|);
  }

  /** When the core splits at its first `/` into a type name and a subtype
      group, the lower-cased input matches `TYPE_REGEXP` with those
      captures. */
  lemma CoreSplitMatches(str: string, i: int)
    requires i == FirstIndexOf(Core(str), '/') && i != -1
    requires IsTypeName(Core(str)[..i]) && IsSubtypeGroup(Core(str)[i + 1..])
    ensures MatchesTypeRegexp(ToLower(str), Core(str)[..i], Core(str)[i + 1..])
  {
    var s := ToLower(str);
    var left := StripLeadingSpaces(s);
    var core := Core(str);
    LowerDecomposes(str);
    var lead := s[..|s| - |left|];
    var trail := left[|core|..];
    var t := core[..i];
    var g := core[i + 1..];
    SplitAround(core, i, '/');
    Regroup(lead, t, "/", g, trail);
    assert s == lead + (t + "/" + g + trail);
    MatchIntro(s, lead, t, g, trail);
  }

  /** A successful parse exhibits a match of `TYPE_REGEXP`. */
  lemma ParseOkMatches(str: string)
    requires Parse(str).Ok?
    ensures exists t, g :: MatchesTypeRegexp(ToLower(str), t, g)
  {
    var core := Core(str);
    var i := FirstIndexOf(core, '/');
    CoreSplitMatches(str, i);
  }

  /** The parse succeeds exactly on the strings whose lower-case form
      `TYPE_REGEXP` matches, and it returns that match's captures with the
      subtype group split at its last `+`. */
  lemma ParseIsTypeRegexp(str: string)
    ensures Parse(str).Ok? <==> exists t, g :: MatchesTypeRegexp(ToLower(str), t, g)
    ensures forall t, g :: MatchesTypeRegexp(ToLower(str), t, g) ==>
      Parse(str) == Ok(MediaType(t, SplitSuffix(g).0, SplitSuffix(g).1))
  {
    if Parse(str).Ok? {
      ParseOkMatches(str);
    }
    forall t, g | MatchesTypeRegexp(ToLower(str), t, g)
      ensures Parse(str) == Ok(MediaType(t, SplitSuffix(g).0, SplitSuffix(g).1))
    {
      ParseOfMatch(str, t, g);
    }
  }

  lemma LowerOfLower(s: string)
    requires IsLower(s)
    ensures ToLower(s) == s
  {
  }

  lemma NoPlusInTypeName(s: string)
    requires IsTypeName(s)
    ensures '+' !in s
  {
    forall k | 0 <= k < |s| ensures s[k] != '+' {
      if k > 0 { assert InClass(s[k], TypeNameClass); }
    }
  }

  lemma NoPlusInSubtypeName(s: string)
    requires IsSubtypeName(s)
    ensures '+' !in s
  {
    forall k | 0 <= k < |s| ensures s[k] != '+' {
      if k > 0 { assert InClass(s[k], SubtypeNameClass); }
    }
  }

  /** Splitting `sub+suf` at its last `+` recovers both parts when neither
      contains a `+`. */
  lemma SplitSuffixJoined(sub: string, suf: string)
    requires '+' !in sub && '+' !in suf
    ensures SplitSuffix(sub + "+" + suf) == (sub, Some(suf))
  {
    var g := sub + "+" + suf;
    var idx := LastIndexOf(g, '+');
    assert g[|sub|] == '+';
    assert forall k :: |sub| < k < |g| ==> g[k] == suf[k - |sub| - 1];
    assert g[..idx] == sub && g[idx + 1..] == suf;
  }

  /** The text `format` produces for a valid lower-case media type is
      lower-case, and its part after `/` is a subtype group. */
  lemma FormatText(m: MediaType, g: string)
    requires Format(m).Ok?
    requires IsLower(m.typ) && IsLower(m.subtype) && SuffixIsLower(m.suffix)
    requires m.suffix.None? || m.suffix.value != ""
    requires m.suffix.Some? ==> |m.subtype| + 1 + |m.suffix.value| <= 127
    requires g == if m.suffix.Some? then m.subtype + "+" + m.suffix.value else m.subtype
    ensures Format(m).value == m.typ + "/" + g
    ensures IsLower(m.typ + "/" + g) && IsSubtypeGroup(g)
  {
    var str := m.typ + "/" + g;
    forall k | 0 <= k < |g| ensures LowerChar(g[k]) {
      if k > |m.subtype| { assert g[k] == m.suffix.value[k - |m.subtype| - 1]; }
    }
    forall k | 0 <= k < |str| ensures LowerChar(str[k]) {
      if k < |m.typ| { assert str[k] == m.typ[k]; }
      else if k > |m.typ| { assert str[k] == g[k - |m.typ| - 1]; }
    }
    forall k | 1 <= k < |g| ensures InClass(g[k], SubtypeGroupClass) {
      if k > |m.subtype| {
        assert g[k] == m.suffix.value[k - |m.subtype| - 1];
      }
    }
  }

  /** Round trip: formatting a valid lower-case media type and parsing the
      text gives the media type back, provided its suffix is absent or
      non-empty and the subtype with its suffix fits the 127-character group
      of `TYPE_REGEXP`. */
  lemma ParseFormat(m: MediaType)
    requires Format(m).Ok?
    requires IsLower(m.typ) && IsLower(m.subtype) && SuffixIsLower(m.suffix)
    requires m.suffix.None? || m.suffix.value != ""
    requires m.suffix.Some? ==> |m.subtype| + 1 + |m.suffix.value| <= 127
    ensures Parse(Format(m).value) == Ok(m)
  {
    var g := if m.suffix.Some? then m.subtype + "+" + m.suffix.value else m.subtype;
    FormatMatches(m, g);
    ParseOfMatch(Format(m).value, m.typ, g);
    SplitGroup(m, g);
  }

  /** The text `format` produces is matched by `TYPE_REGEXP`, capturing the
      type and the subtype group. */
  lemma FormatMatches(m: MediaType, g: string)
    requires Format(m).Ok?
    requires IsLower(m.typ) && IsLower(m.subtype) && SuffixIsLower(m.suffix)
    requires m.suffix.None? || m.suffix.value != ""
    requires m.suffix.Some? ==> |m.subtype| + 1 + |m.suffix.value| <= 127
    requires g == if m.suffix.Some? then m.subtype + "+" + m.suffix.value else m.subtype
    ensures MatchesTypeRegexp(ToLower(Format(m).value), m.typ, g)
  {
    FormatText(m, g);
    var str := m.typ + "/" + g;
    LowerOfLower(str);
    assert str == "" + m.typ + "/" + g + "";
    MatchIntro(str, "", m.typ, g, "");
  }

  /** A match of `TYPE_REGEXP` on the lower-case input decides the parse. */
  lemma ParseOfMatch(str: string, t: string, g: string)
    requires MatchesTypeRegexp(ToLower(str), t, g)
    ensures Parse(str) == Ok(MediaType(t, SplitSuffix(g).0, SplitSuffix(g).1))
  {
    MatchUnique(ToLower(str), t, g);
    FirstSlashAfterType(t, g);
    var x := t + "/" + g;
    assert Core(str) == x;
    assert x[..|t|] == t && x[|t| + 1..] == g;
  }

  /** The group `format` writes splits back into the subtype and suffix. */
  lemma SplitGroup(m: MediaType, g: string)
    requires Format(m).Ok?
    requires m.suffix.None? || m.suffix.value != ""
    requires g == if m.suffix.Some? then m.subtype + "+" + m.suffix.value else m.subtype
    ensures SplitSuffix(g) == (m.subtype, m.suffix)
  {
    NoPlusInSubtypeName(m.subtype);
    if m.suffix.Some? {
      NoPlusInTypeName(m.suffix.value);
      SplitSuffixJoined(m.subtype, m.suffix.value);
    }
  }

  /** Parsing ignores letter case: any input and its lower-case form parse
      to the same result. */
  lemma ParseIgnoresCase(str: string)
    ensures Parse(ToLower(str)) == Parse(str)
  {
    ToLowerAt(str);
    ToLowerAt(ToLower(str));
    assert ToLower(ToLower(str)) == ToLower(str);
  }

  /** `toLowerCase` turns the Kelvin sign into `k`, so a subtype written
      with it parses as the ASCII name. */
  lemma KelvinSignParses()
    ensures Parse("text/" + [KelvinSign]) == Ok(MediaType("text", "k", None))
  {
    var str := "text/" + [KelvinSign];
    ToLowerAt(str);
    assert ToLower(str) == "text/k";
    assert IsSubtypeGroup("k");
    MatchIntro(ToLower(str), "", "text", "k", "");
    ParseOfMatch(str, "text", "k");
  }
}
