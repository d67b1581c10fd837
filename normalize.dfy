/** The two text normalisers of the location mapper:
    - Norm, the matching key of an alias (lower case, apostrophes deleted,
      every run of characters outside [a-z0-9] turned into one space, trimmed);
    - Slugify, the path segment of a tree entry (lower case, every run of
      characters outside [a-z0-9] turned into one hyphen, edge hyphens dropped).
    Both start from StripDiacritics followed by a lower-casing step. */
module Normalize {

  // ---------------------------------------------------------------------------
  // Character classes
  // ---------------------------------------------------------------------------

  /** The regular-expression class [a-z0-9]. */
  predicate IsAlnum(c: char) {
    ('a' <= c <= 'z') || ('0' <= c <= '9')
  }

  /** The JavaScript class \s, which String.prototype.trim also strips. */
  predicate IsSpace(c: char) {
    c == ' ' || c == '\t' || c == '\n' || c == '\r' || c == '\U{000B}' || c == '\U{000C}'
    || c == '\U{00A0}' || c == '\U{1680}' || ('\U{2000}' <= c <= '\U{200A}')
    || c == '\U{2028}' || c == '\U{2029}' || c == '\U{202F}' || c == '\U{205F}'
    || c == '\U{3000}' || c == '\U{FEFF}'
  }

  /** The two apostrophes the key deletes: ' and the right single quotation mark. */
  predicate IsApostrophe(c: char) {
    c == '\'' || c == '\U{2019}'
  }

  // ---------------------------------------------------------------------------
  // stripDiacritics: canonical decomposition, then removal of \p{Diacritic}
  // ---------------------------------------------------------------------------

  /** Characters with the Unicode Diacritic property covered by the model:
      the spacing accents of ASCII and Latin-1 and the combining marks. */
  predicate IsDiacritic(c: char) {
    c == '^' || c == '`' || c == '\U{00A8}' || c == '\U{00AF}' || c == '\U{00B4}'
    || c == '\U{00B7}' || c == '\U{00B8}'
    || ('\U{0300}' <= c <= '\U{034E}') || ('\U{0350}' <= c <= '\U{0357}')
    || ('\U{035D}' <= c <= '\U{0362}')
  }

  /** The base letter that canonical decomposition leaves once the combining
      mark is removed, for the precomposed letters of Latin-1 and the Kelvin
      and Angstrom signs; every other character is its own base. */
  function BaseLetter(c: char): char {
    if '\U{00C0}' <= c <= '\U{00C5}' then 'A'
    else if c == '\U{00C7}' then 'C'
    else if '\U{00C8}' <= c <= '\U{00CB}' then 'E'
    else if '\U{00CC}' <= c <= '\U{00CF}' then 'I'
    else if c == '\U{00D1}' then 'N'
    else if '\U{00D2}' <= c <= '\U{00D6}' then 'O'
    else if '\U{00D9}' <= c <= '\U{00DC}' then 'U'
    else if c == '\U{00DD}' then 'Y'
    else if '\U{00E0}' <= c <= '\U{00E5}' then 'a'
    else if c == '\U{00E7}' then 'c'
    else if '\U{00E8}' <= c <= '\U{00EB}' then 'e'
    else if '\U{00EC}' <= c <= '\U{00EF}' then 'i'
    else if c == '\U{00F1}' then 'n'
    else if '\U{00F2}' <= c <= '\U{00F6}' then 'o'
    else if '\U{00F9}' <= c <= '\U{00FC}' then 'u'
    else if c == '\U{00FD}' || c == '\U{00FF}' then 'y'
    else if c == '\U{212A}' then 'K'
    else if c == '\U{212B}' then 'A'
    else c
  }

  function StripDiacritics(s: string): string
    decreases |s|
  {
    if s == [] then []
    else (if IsDiacritic(s[0]) then [] else [BaseLetter(s[0])]) + StripDiacritics(s[1..])
  }

  // ---------------------------------------------------------------------------
  // toLowerCase and the apostrophe filter
  // ---------------------------------------------------------------------------

  /** Lower case of ASCII and Latin-1 capitals (the multiplication sign excepted). */
  function LowerChar(c: char): char {
    if 'A' <= c <= 'Z' || ('\U{00C0}' <= c <= '\U{00DE}' && c != '\U{00D7}') then
      (c as int + 32) as char
    else c
  }

  function ToLower(s: string): string {
    seq(|s|, i requires 0 <= i < |s| => LowerChar(s[i]))
  }

  function RemoveApostrophes(s: string): string
    decreases |s|
  {
    if s == [] then []
    else (if IsApostrophe(s[0]) then [] else [s[0]]) + RemoveApostrophes(s[1..])
  }

  // ---------------------------------------------------------------------------
  // Run replacement: `s.replace(/X+/g, rep)` for the three classes used
  // ---------------------------------------------------------------------------

  /** The character classes whose maximal runs the normalisers replace:
      [^a-z0-9], \s and the hyphen. */
  datatype RunClass = NotAlnum | Whitespace | Hyphens

  predicate InRun(k: RunClass, c: char) {
    match k
    case NotAlnum => !IsAlnum(c)
    case Whitespace => IsSpace(c)
    case Hyphens => c == '-'
  }

  /** Replaces every maximal run of characters of class `k` by the single
      character `rep`; `inRun` says that the character before `s` was part of
      a run already replaced. */
  function ReplaceRuns(s: string, k: RunClass, rep: char, inRun: bool): string
    decreases |s|
  {
    if s == [] then []
    else if !InRun(k, s[0]) then [s[0]] + ReplaceRuns(s[1..], k, rep, false)
    else if inRun then ReplaceRuns(s[1..], k, rep, true)
    else [rep] + ReplaceRuns(s[1..], k, rep, true)
  }

  // ---------------------------------------------------------------------------
  // Trimming
  // ---------------------------------------------------------------------------

  function TrimStart(s: string): string
    decreases |s|
  {
    if s != [] && IsSpace(s[0]) then TrimStart(s[1..]) else s
  }

  function TrimEnd(s: string): string
    decreases |s|
  {
    if s != [] && IsSpace(s[|s| - 1]) then TrimEnd(s[..|s| - 1]) else s
  }

  /** String.prototype.trim */
  function Trim(s: string): string {
    TrimEnd(TrimStart(s))
  }

  /** main.js:22: one leading and one trailing separator removed, with `sep`
      standing for the hyphen. */
  function StripEdges(s: string, sep: char): string {
    var t := if s != [] && s[0] == sep then s[1..] else s;
    if t != [] && t[|t| - 1] == sep then t[..|t| - 1] else t
  }

  // ---------------------------------------------------------------------------
  // The two normalisers
  // ---------------------------------------------------------------------------

  /** The common first two steps: stripDiacritics, then toLowerCase. */
  function Lowered(s: string): string {
    ToLower(StripDiacritics(s))
  }

  /** The text the key's run replacement starts from: apostrophes deleted. */
  function KeySource(s: string): string {
    RemoveApostrophes(Lowered(s))
  }

  /** norm: the matching key of an alias. */
  function Norm(s: string): string {
    Trim(ReplaceRuns(ReplaceRuns(KeySource(s), NotAlnum, ' ', false), Whitespace, ' ', false))
  }

  /** slugify: the path segment of a tree entry. */
  function Slugify(s: string): string {
    StripEdges(ReplaceRuns(ReplaceRuns(Lowered(s), NotAlnum, '-', false), Hyphens, '-', false), '-')
  }

  // ---------------------------------------------------------------------------
  // Output shapes
  // ---------------------------------------------------------------------------

  /** Only [a-z0-9] and `sep`, never two separators in a row. */
  predicate IsJoined(s: string, sep: char) {
    (forall i | 0 <= i < |s| :: IsAlnum(s[i]) || s[i] == sep)
    && (forall i | 0 <= i < |s| - 1 :: !(s[i] == sep && s[i + 1] == sep))
  }

  /** Words of [a-z0-9] joined by single separators, none at either end. */
  predicate IsCanonical(s: string, sep: char) {
    IsJoined(s, sep) && (s != [] ==> s[0] != sep && s[|s| - 1] != sep)
  }

  /** The regular expression ^[a-z0-9]+(sep[a-z0-9]+)*$ read left to right. */
  predicate MatchesWords(s: string, sep: char)
    decreases |s|
  {
    |s| > 0 && IsAlnum(s[0])
    && (|s| == 1
        || (IsAlnum(s[1]) && MatchesWords(s[1..], sep))
        || (s[1] == sep && MatchesWords(s[2..], sep)))
  }

  /** The letters and digits of a string, in order. */
  function Alnums(s: string): string
    decreases |s|
  {
    if s == [] then []
    else (if IsAlnum(s[0]) then [s[0]] else []) + Alnums(s[1..])
  }

  /** A key with its spaces written as hyphens. */
  function Hyphenate(s: string): string {
    seq(|s|, i requires 0 <= i < |s| => if s[i] == ' ' then '-' else s[i])
  }

  // ---------------------------------------------------------------------------
  // Lemmas: run replacement
  // ---------------------------------------------------------------------------

  lemma JoinedCons(c: char, t: string, sep: char)
    requires IsJoined(t, sep)
    requires IsAlnum(c) || c == sep
    requires c == sep ==> t == [] || t[0] != sep
    ensures IsJoined([c] + t, sep)
  {
    var s := [c] + t;
    forall i | 0 <= i < |s| ensures IsAlnum(s[i]) || s[i] == sep {
      if i > 0 { assert s[i] == t[i - 1]; }
    }
    forall i | 0 <= i < |s| - 1 ensures !(s[i] == sep && s[i + 1] == sep) {
      if i > 0 { assert s[i] == t[i - 1] && s[i + 1] == t[i]; }
    }
  }

  lemma AlnumsCons(c: char, t: string)
    ensures Alnums([c] + t) == (if IsAlnum(c) then [c] else []) + Alnums(t)
  {
    assert ([c] + t)[1..] == t;
  }

  /** Replacing the runs of [^a-z0-9] by a separator leaves only letters,
      digits and single separators, and keeps every letter and digit in order. */
  lemma {:induction false} RunsShape(s: string, rep: char, inRun: bool)
    requires !IsAlnum(rep)
    ensures IsJoined(ReplaceRuns(s, NotAlnum, rep, inRun), rep)
    ensures inRun ==> ReplaceRuns(s, NotAlnum, rep, inRun) == []
                      || ReplaceRuns(s, NotAlnum, rep, inRun)[0] != rep
    ensures Alnums(ReplaceRuns(s, NotAlnum, rep, inRun)) == Alnums(s)
    decreases |s|
  {
    if s != [] {
      var t := s[1..];
      assert s == [s[0]] + t;
      AlnumsCons(s[0], t);
      if !InRun(NotAlnum, s[0]) {
        RunsShape(t, rep, false);
        JoinedCons(s[0], ReplaceRuns(t, NotAlnum, rep, false), rep);
        AlnumsCons(s[0], ReplaceRuns(t, NotAlnum, rep, false));
      } else if inRun {
        RunsShape(t, rep, true);
      } else {
        RunsShape(t, rep, true);
        JoinedCons(rep, ReplaceRuns(t, NotAlnum, rep, true), rep);
        AlnumsCons(rep, ReplaceRuns(t, NotAlnum, rep, true));
      }
    }
  }

  /** A string already made of words joined by single separators is left
      unchanged by a run replacement whose runs are exactly its separators. */
  lemma {:induction false} RunsFixed(t: string, k: RunClass, rep: char, inRun: bool)
    requires IsJoined(t, rep)
    requires forall i | 0 <= i < |t| :: InRun(k, t[i]) == (t[i] == rep)
    requires inRun ==> t == [] || t[0] != rep
    ensures ReplaceRuns(t, k, rep, inRun) == t
    decreases |t|
  {
    if t != [] {
      var u := t[1..];
      assert IsJoined(u, rep) by {
        forall i | 0 <= i < |u| ensures IsAlnum(u[i]) || u[i] == rep { assert u[i] == t[i + 1]; }
        forall i | 0 <= i < |u| - 1 ensures !(u[i] == rep && u[i + 1] == rep) {
          assert u[i] == t[i + 1] && u[i + 1] == t[i + 2];
        }
      }
      assert forall i | 0 <= i < |u| :: InRun(k, u[i]) == (u[i] == rep) by {
        forall i | 0 <= i < |u| ensures InRun(k, u[i]) == (u[i] == rep) { assert u[i] == t[i + 1]; }
      }
      if t[0] == rep {
        assert u != [] ==> u[0] == t[1];
        RunsFixed(u, k, rep, true);
      } else {
        RunsFixed(u, k, rep, false);
      }
      assert t == [t[0]] + u;
    }
  }

  // ---------------------------------------------------------------------------
  // Lemmas: edges and trimming
  // ---------------------------------------------------------------------------

  /** On words joined by single spaces, trim removes exactly the one space that
      may stand at each end. */
  lemma TrimJoined(u: string)
    requires IsJoined(u, ' ')
    ensures Trim(u) == StripEdges(u, ' ')
  {
    var t := if u != [] && u[0] == ' ' then u[1..] else u;
    if u != [] && u[0] == ' ' {
      assert TrimStart(u) == TrimStart(t);
      assert t != [] ==> t[0] == u[1];
    }
    assert TrimStart(t) == t;
    assert TrimStart(u) == t;
    if t != [] && t[|t| - 1] == ' ' {
      var w := t[..|t| - 1];
      assert TrimEnd(t) == TrimEnd(w);
      if w != [] {
        assert w[|w| - 1] == u[|u| - 2];
      }
      assert TrimEnd(w) == w;
    } else {
      if t != [] { assert t[|t| - 1] == u[|u| - 1]; }
      assert TrimEnd(t) == t;
    }
  }

  /** Dropping one separator at each end of words joined by single separators
      gives a canonical string with the same letters and digits. */
  lemma EdgesCanonical(u: string, sep: char)
    requires IsJoined(u, sep)
    requires !IsAlnum(sep)
    ensures IsCanonical(StripEdges(u, sep), sep)
    ensures Alnums(StripEdges(u, sep)) == Alnums(u)
  {
    var t := if u != [] && u[0] == sep then u[1..] else u;
    if u != [] && u[0] == sep {
      assert u == [sep] + t;
      AlnumsCons(sep, t);
    }
    assert Alnums(t) == Alnums(u);
    var w := if t != [] && t[|t| - 1] == sep then t[..|t| - 1] else t;
    if t != [] && t[|t| - 1] == sep {
      AlnumsSnoc(w, sep);
      assert t == w + [sep];
    }
    assert Alnums(w) == Alnums(t);
    assert w == StripEdges(u, sep);
  }

  lemma {:induction false} AlnumsSnoc(s: string, c: char)
    ensures Alnums(s + [c]) == Alnums(s) + (if IsAlnum(c) then [c] else [])
    decreases |s|
  {
    if s == [] {
      assert [] + [c] == [c];
      AlnumsCons(c, []);
    } else {
      assert s + [c] == [s[0]] + (s[1..] + [c]);
      AlnumsCons(s[0], s[1..] + [c]);
      AlnumsSnoc(s[1..], c);
      assert s == [s[0]] + s[1..];
      AlnumsCons(s[0], s[1..]);
    }
  }

  // ---------------------------------------------------------------------------
  // Lemmas: shape of Norm and Slugify
  // ---------------------------------------------------------------------------

  /** The whitespace collapse in norm changes nothing: the run replacement has
      already left only single spaces. */
  lemma NormAsEdges(s: string)
    ensures IsJoined(ReplaceRuns(KeySource(s), NotAlnum, ' ', false), ' ')
    ensures Norm(s) == StripEdges(ReplaceRuns(KeySource(s), NotAlnum, ' ', false), ' ')
  {
    var u := ReplaceRuns(KeySource(s), NotAlnum, ' ', false);
    RunsShape(KeySource(s), ' ', false);
    RunsFixed(u, Whitespace, ' ', false);
    TrimJoined(u);
  }

  /** The hyphen collapse in slugify changes nothing either. */
  lemma SlugifyAsEdges(s: string)
    ensures IsJoined(ReplaceRuns(Lowered(s), NotAlnum, '-', false), '-')
    ensures Slugify(s) == StripEdges(ReplaceRuns(Lowered(s), NotAlnum, '-', false), '-')
  {
    var u := ReplaceRuns(Lowered(s), NotAlnum, '-', false);
    RunsShape(Lowered(s), '-', false);
    RunsFixed(u, Hyphens, '-', false);
  }

  /** norm yields only [a-z0-9] and single inner spaces, and keeps every letter
      and digit of the lower-cased, apostrophe-free text, in order. */
  lemma NormCanonical(s: string)
    ensures IsCanonical(Norm(s), ' ')
    ensures Alnums(Norm(s)) == Alnums(KeySource(s))
  {
    NormAsEdges(s);
    RunsShape(KeySource(s), ' ', false);
    EdgesCanonical(ReplaceRuns(KeySource(s), NotAlnum, ' ', false), ' ');
  }

  /** slugify yields only [a-z0-9] and single inner hyphens, and keeps every
      letter and digit of the lower-cased text, in order. */
  lemma SlugifyCanonical(s: string)
    ensures IsCanonical(Slugify(s), '-')
    ensures Alnums(Slugify(s)) == Alnums(Lowered(s))
  {
    SlugifyAsEdges(s);
    RunsShape(Lowered(s), '-', false);
    EdgesCanonical(ReplaceRuns(Lowered(s), NotAlnum, '-', false), '-');
  }

  /** A suffix of a canonical string that starts on a word is canonical. */
  lemma SuffixCanonical(k: string, i: nat, sep: char)
    requires IsCanonical(k, sep)
    requires i <= |k|
    requires i < |k| ==> k[i] != sep
    ensures IsCanonical(k[i..], sep)
  {
    var t := k[i..];
    forall j | 0 <= j < |t| ensures IsAlnum(t[j]) || t[j] == sep { assert t[j] == k[i + j]; }
    forall j | 0 <= j < |t| - 1 ensures !(t[j] == sep && t[j + 1] == sep) {
      assert t[j] == k[i + j] && t[j + 1] == k[i + j + 1];
    }
  }

  lemma CanonicalConsWord(c: char, t: string, sep: char)
    requires IsAlnum(c) && !IsAlnum(sep) && t != [] && IsCanonical(t, sep)
    ensures IsCanonical([c] + t, sep)
  {
    JoinedCons(c, t, sep);
    assert ([c] + t)[|t|] == t[|t| - 1];
  }

  lemma CanonicalConsSep(c: char, t: string, sep: char)
    requires IsAlnum(c) && !IsAlnum(sep) && t != [] && IsCanonical(t, sep)
    ensures IsCanonical([c, sep] + t, sep)
  {
    JoinedCons(sep, t, sep);
    JoinedCons(c, [sep] + t, sep);
    assert [c, sep] + t == [c] + ([sep] + t);
    assert ([c, sep] + t)[|t| + 1] == t[|t| - 1];
  }

  /** The canonical shape is the regular expression ^[a-z0-9]+(sep[a-z0-9]+)*$
      (or the empty string). */
  lemma {:induction false} CanonicalIffWords(s: string, sep: char)
    requires !IsAlnum(sep)
    ensures (s != [] && IsCanonical(s, sep)) <==> MatchesWords(s, sep)
    decreases |s|
  {
    if |s| >= 2 {
      CanonicalIffWords(s[1..], sep);
      CanonicalIffWords(s[2..], sep);
      if s != [] && IsCanonical(s, sep) {
        if s[1] == sep {
          SuffixCanonical(s, 2, sep);
        } else {
          SuffixCanonical(s, 1, sep);
        }
      }
      if MatchesWords(s, sep) {
        if IsAlnum(s[1]) && MatchesWords(s[1..], sep) {
          CanonicalConsWord(s[0], s[1..], sep);
          assert s == [s[0]] + s[1..];
        } else {
          CanonicalConsSep(s[0], s[2..], sep);
          assert s == [s[0], sep] + s[2..];
        }
      }
    }
  }

  /** slugify's output is empty or matches ^[a-z0-9]+(-[a-z0-9]+)*$. */
  lemma SlugifyMatchesPattern(s: string)
    ensures Slugify(s) == "" || MatchesWords(Slugify(s), '-')
  {
    SlugifyCanonical(s);
    CanonicalIffWords(Slugify(s), '-');
  }

  // ---------------------------------------------------------------------------
  // Lemmas: empty results
  // ---------------------------------------------------------------------------

  lemma {:induction false} AlnumsEmpty(t: string)
    ensures Alnums(t) == [] <==> forall i | 0 <= i < |t| :: !IsAlnum(t[i])
    decreases |t|
  {
    if t != [] {
      AlnumsEmpty(t[1..]);
      assert forall i | 1 <= i < |t| :: t[i] == t[1..][i - 1];
    }
  }

  lemma CanonicalEmpty(r: string, sep: char)
    requires IsCanonical(r, sep)
    ensures r == [] <==> Alnums(r) == []
  {
    if r != [] {
      assert r == [r[0]] + r[1..];
      AlnumsCons(r[0], r[1..]);
    }
  }

  /** norm returns "" exactly when the lower-cased, apostrophe-free text has no
      letter or digit: empty and all-punctuation input included. */
  lemma NormEmptyIff(s: string)
    ensures Norm(s) == "" <==> forall i | 0 <= i < |KeySource(s)| :: !IsAlnum(KeySource(s)[i])
  {
    NormCanonical(s);
    CanonicalEmpty(Norm(s), ' ');
    AlnumsEmpty(KeySource(s));
  }

  /** slugify returns "" exactly when the lower-cased text has no letter or digit. */
  lemma SlugifyEmptyIff(s: string)
    ensures Slugify(s) == "" <==> forall i | 0 <= i < |Lowered(s)| :: !IsAlnum(Lowered(s)[i])
  {
    SlugifyCanonical(s);
    CanonicalEmpty(Slugify(s), '-');
    AlnumsEmpty(Lowered(s));
  }

  // ---------------------------------------------------------------------------
  // Lemmas: idempotence
  // ---------------------------------------------------------------------------

  /** Text over [a-z0-9], space and hyphen passes the first steps unchanged. */
  predicate IsPlain(t: string) {
    forall i | 0 <= i < |t| :: IsAlnum(t[i]) || t[i] == ' ' || t[i] == '-'
  }

  lemma PlainTail(t: string)
    requires IsPlain(t) && t != []
    ensures IsPlain(t[1..])
  {
    forall i | 0 <= i < |t[1..]| ensures IsAlnum(t[1..][i]) || t[1..][i] == ' ' || t[1..][i] == '-' {
      assert t[1..][i] == t[i + 1];
    }
  }

  lemma {:induction false} PlainNoDiacritics(t: string)
    requires IsPlain(t)
    ensures StripDiacritics(t) == t
    decreases |t|
  {
    if t != [] {
      PlainTail(t);
      PlainNoDiacritics(t[1..]);
      assert !IsDiacritic(t[0]) && BaseLetter(t[0]) == t[0];
      assert t == [t[0]] + t[1..];
    }
  }

  lemma {:induction false} PlainNoApostrophes(t: string)
    requires IsPlain(t)
    ensures RemoveApostrophes(t) == t
    decreases |t|
  {
    if t != [] {
      PlainTail(t);
      PlainNoApostrophes(t[1..]);
      assert !IsApostrophe(t[0]);
      assert t == [t[0]] + t[1..];
    }
  }

  lemma PlainUnchanged(t: string)
    requires IsPlain(t)
    ensures StripDiacritics(t) == t
    ensures ToLower(t) == t
    ensures RemoveApostrophes(t) == t
  {
    PlainNoDiacritics(t);
    PlainNoApostrophes(t);
    assert ToLower(t) == t;
  }

  lemma CanonicalIsPlain(t: string, sep: char)
    requires IsCanonical(t, sep)
    requires sep == ' ' || sep == '-'
    ensures IsPlain(t)
  {
  }

  lemma LoweredPlain(k: string)
    requires IsPlain(k)
    ensures Lowered(k) == k
  {
    PlainUnchanged(k);
  }

  lemma KeySourcePlain(k: string)
    requires IsPlain(k)
    ensures KeySource(k) == k
  {
    LoweredPlain(k);
    PlainUnchanged(k);
  }

  /** Both run replacements of norm leave words joined by single spaces alone. */
  lemma KeyRunsFixed(k: string)
    requires IsJoined(k, ' ')
    ensures ReplaceRuns(ReplaceRuns(k, NotAlnum, ' ', false), Whitespace, ' ', false) == k
  {
    forall i | 0 <= i < |k| ensures InRun(NotAlnum, k[i]) == (k[i] == ' ') { }
    RunsFixed(k, NotAlnum, ' ', false);
    forall i | 0 <= i < |k| ensures InRun(Whitespace, k[i]) == (k[i] == ' ') { }
    RunsFixed(k, Whitespace, ' ', false);
  }

  /** Both run replacements of slugify leave words joined by single hyphens alone. */
  lemma SlugRunsFixed(k: string)
    requires IsJoined(k, '-')
    ensures ReplaceRuns(ReplaceRuns(k, NotAlnum, '-', false), Hyphens, '-', false) == k
  {
    forall i | 0 <= i < |k| ensures InRun(NotAlnum, k[i]) == (k[i] == '-') { }
    RunsFixed(k, NotAlnum, '-', false);
    RunsFixed(k, Hyphens, '-', false);
  }

  /** A canonical key is its own key. */
  lemma NormFixed(k: string)
    requires IsCanonical(k, ' ')
    ensures Norm(k) == k
  {
    CanonicalIsPlain(k, ' ');
    KeySourcePlain(k);
    KeyRunsFixed(k);
    TrimJoined(k);
  }

  /** A canonical slug is its own slug. */
  lemma SlugifyFixed(k: string)
    requires IsCanonical(k, '-')
    ensures Slugify(k) == k
  {
    CanonicalIsPlain(k, '-');
    LoweredPlain(k);
    SlugRunsFixed(k);
  }

  lemma NormIdempotent(s: string)
    ensures Norm(Norm(s)) == Norm(s)
  {
    NormCanonical(s);
    NormFixed(Norm(s));
  }

  lemma SlugifyIdempotent(s: string)
    ensures Slugify(Slugify(s)) == Slugify(s)
  {
    SlugifyCanonical(s);
    SlugifyFixed(Slugify(s));
  }

  // ---------------------------------------------------------------------------
  // Lemmas: apostrophes are deleted, not turned into separators
  // ---------------------------------------------------------------------------

  lemma {:induction false} StripDiacriticsConcat(a: string, b: string)
    ensures StripDiacritics(a + b) == StripDiacritics(a) + StripDiacritics(b)
    decreases |a|
  {
    if a == [] {
      assert a + b == b;
    } else {
      assert (a + b)[1..] == a[1..] + b;
      StripDiacriticsConcat(a[1..], b);
    }
  }

  lemma {:induction false} RemoveApostrophesConcat(a: string, b: string)
    ensures RemoveApostrophes(a + b) == RemoveApostrophes(a) + RemoveApostrophes(b)
    decreases |a|
  {
    if a == [] {
      assert a + b == b;
    } else {
      assert (a + b)[1..] == a[1..] + b;
      RemoveApostrophesConcat(a[1..], b);
    }
  }

  lemma LoweredConcat(a: string, b: string)
    ensures Lowered(a + b) == Lowered(a) + Lowered(b)
  {
    StripDiacriticsConcat(a, b);
    var x, y := StripDiacritics(a), StripDiacritics(b);
    assert ToLower(x + y) == ToLower(x) + ToLower(y);
  }

  lemma KeySourceConcat(a: string, b: string)
    ensures KeySource(a + b) == KeySource(a) + KeySource(b)
  {
    LoweredConcat(a, b);
    RemoveApostrophesConcat(Lowered(a), Lowered(b));
  }

  /** An apostrophe anywhere in the text does not change its key: "d'Ouro" and
      "dOuro" share the key "douro", unlike "d Ouro". */
  lemma NormDropsApostrophe(a: string, b: string, q: char)
    requires IsApostrophe(q)
    ensures Norm(a + [q] + b) == Norm(a + b)
  {
    ApostropheNoKey(q);
    KeySourceConcat(a + [q], b);
    KeySourceConcat(a, [q]);
    KeySourceConcat(a, b);
    assert KeySource(a + [q]) == KeySource(a);
  }

  lemma ApostropheNoKey(q: char)
    requires IsApostrophe(q)
    ensures KeySource([q]) == []
  {
    assert [q][1..] == [];
    assert StripDiacritics([q]) == [q];
    assert ToLower([q]) == [q];
    assert RemoveApostrophes([q]) == [];
  }

  // ---------------------------------------------------------------------------
  // Lemmas: the slug is the key with hyphens for spaces
  // ---------------------------------------------------------------------------

  lemma {:induction false} HyphenateRuns(t: string, inRun: bool)
    ensures Hyphenate(ReplaceRuns(t, NotAlnum, ' ', inRun)) == ReplaceRuns(t, NotAlnum, '-', inRun)
    decreases |t|
  {
    if t != [] {
      HyphenateRuns(t[1..], false);
      HyphenateRuns(t[1..], true);
      forall x: string, c: char ensures Hyphenate([c] + x) == [if c == ' ' then '-' else c] + Hyphenate(x) {
        assert |Hyphenate([c] + x)| == 1 + |x|;
      }
    }
  }

  lemma HyphenateEdges(u: string)
    requires forall i | 0 <= i < |u| :: u[i] != '-'
    ensures Hyphenate(StripEdges(u, ' ')) == StripEdges(Hyphenate(u), '-')
  {
    var h := Hyphenate(u);
    var t := if u != [] && u[0] == ' ' then u[1..] else u;
    var ht := if h != [] && h[0] == '-' then h[1..] else h;
    assert Hyphenate(t) == ht;
    if t != [] {
      assert t[|t| - 1] == u[|u| - 1];
      assert ht[|ht| - 1] == h[|h| - 1];
    }
    if t != [] && t[|t| - 1] == ' ' {
      assert Hyphenate(t[..|t| - 1]) == ht[..|ht| - 1];
    }
  }

  /** For text without apostrophes, the slug is the key with its spaces
      written as hyphens. */
  lemma SlugifyHyphenatesNorm(s: string)
    requires forall i | 0 <= i < |Lowered(s)| :: !IsApostrophe(Lowered(s)[i])
    ensures Slugify(s) == Hyphenate(Norm(s))
  {
    NoApostrophesUnchanged(Lowered(s));
    assert KeySource(s) == Lowered(s);
    NormAsEdges(s);
    SlugifyAsEdges(s);
    var u := ReplaceRuns(Lowered(s), NotAlnum, ' ', false);
    HyphenateRuns(Lowered(s), false);
    assert forall i | 0 <= i < |u| :: u[i] != '-';
    HyphenateEdges(u);
  }

  lemma {:induction false} NoApostrophesUnchanged(t: string)
    requires forall i | 0 <= i < |t| :: !IsApostrophe(t[i])
    ensures RemoveApostrophes(t) == t
    decreases |t|
  {
    if t != [] {
      assert forall i | 0 <= i < |t[1..]| :: t[1..][i] == t[i + 1];
      NoApostrophesUnchanged(t[1..]);
      assert t == [t[0]] + t[1..];
    }
  }

  // ---------------------------------------------------------------------------
  // The key and the slug as words joined by a separator
  // ---------------------------------------------------------------------------

  /** A word: a non-empty run of [a-z0-9]. */
  predicate IsWord(w: string) {
    w != [] && forall i | 0 <= i < |w| :: IsAlnum(w[i])
  }

  /** The length of the run of [a-z0-9] at the start of s. */
  function LeadLen(s: string): (n: nat)
    ensures n <= |s|
    ensures forall i | 0 <= i < n :: IsAlnum(s[i])
    ensures n < |s| ==> !IsAlnum(s[n])
    decreases |s|
  {
    if s != [] && IsAlnum(s[0]) then
      var n := 1 + LeadLen(s[1..]);
      assert forall i | 1 <= i < n :: s[i] == s[1..][i - 1];
      n
    else 0
  }

  /** The words of s: its maximal runs of [a-z0-9], in order. */
  function Words(s: string): (ws: seq<string>)
    ensures forall w | w in ws :: IsWord(w)
    decreases |s|
  {
    if s == [] then []
    else if !IsAlnum(s[0]) then Words(s[1..])
    else
      var n := LeadLen(s);
      [s[..n]] + Words(s[n..])
  }

  /** The words written one after the other with `sep` between them. */
  function JoinWith(ws: seq<string>, sep: char): (r: string)
    ensures (forall w | w in ws :: IsWord(w)) ==> (r == [] <==> ws == [])
    decreases |ws|
  {
    if ws == [] then []
    else if |ws| == 1 then assert ws[0] in ws; ws[0]
    else ws[0] + [sep] + JoinWith(ws[1..], sep)
  }

  /** Joining two non-empty lists of words puts one separator between them. */
  lemma {:induction false} JoinWithConcat(xs: seq<string>, ys: seq<string>, sep: char)
    requires xs != [] && ys != []
    ensures JoinWith(xs + ys, sep) == JoinWith(xs, sep) + [sep] + JoinWith(ys, sep)
    decreases |xs|
  {
    if |xs| == 1 {
      assert (xs + ys)[1..] == ys;
    } else {
      assert (xs + ys)[1..] == xs[1..] + ys;
      JoinWithConcat(xs[1..], ys, sep);
    }
  }

  /** A non-alphanumeric character after the leading run does not lengthen it. */
  lemma {:induction false} LeadLenStops(x: string, c: char, y: string)
    requires !IsAlnum(c)
    ensures LeadLen(x + [c] + y) == LeadLen(x)
    decreases |x|
  {
    if x == [] {
      assert (x + [c] + y)[0] == c;
    } else {
      assert (x + [c] + y)[0] == x[0];
      assert (x + [c] + y)[1..] == x[1..] + [c] + y;
      LeadLenStops(x[1..], c, y);
    }
  }

  /** A non-alphanumeric character ends the words before it: the words of
      x c y are those of x followed by those of y. */
  lemma {:induction false} WordsSplit(x: string, c: char, y: string)
    requires !IsAlnum(c)
    ensures Words(x + [c] + y) == Words(x) + Words(y)
    decreases |x|
  {
    var s := x + [c] + y;
    if x == [] {
      assert s[1..] == y;
    } else if !IsAlnum(x[0]) {
      assert s[0] == x[0] && s[1..] == x[1..] + [c] + y;
      WordsSplit(x[1..], c, y);
    } else {
      WordsSplit(x[LeadLen(x)..], c, y);
      WordsSplitAfterWord(x, c, y);
    }
  }

  /** The step of WordsSplit where x starts with a word: that word is also the
      first word of x c y, and the rest follows from the shorter case. */
  lemma {:induction false} WordsSplitAfterWord(x: string, c: char, y: string)
    requires !IsAlnum(c) && x != [] && IsAlnum(x[0])
    requires Words(x[LeadLen(x)..] + [c] + y) == Words(x[LeadLen(x)..]) + Words(y)
    ensures Words(x + [c] + y) == Words(x) + Words(y)
  {
    var s := x + [c] + y;
    var n := LeadLen(x);
    LeadLenStops(x, c, y);
    assert s[0] == x[0];
    assert s[..n] == x[..n] && s[n..] == x[n..] + [c] + y;
  }

  /** A word is its own only word. */
  lemma WordsOfWord(w: string)
    requires IsWord(w)
    ensures Words(w) == [w]
  {
    var n := LeadLen(w);
    assert n == |w|;
    assert w[..n] == w && w[n..] == [];
  }

  /** Round trip: splitting words joined by a non-alphanumeric separator gives
      the words back. */
  lemma {:induction false} WordsOfJoin(ws: seq<string>, sep: char)
    requires !IsAlnum(sep) && forall w | w in ws :: IsWord(w)
    ensures Words(JoinWith(ws, sep)) == ws
    decreases |ws|
  {
    if ws == [] {
    } else if |ws| == 1 {
      WordsOfWord(ws[0]);
    } else {
      assert ws[0] in ws;
      assert forall w | w in ws[1..] :: w in ws;
      WordsOfWord(ws[0]);
      WordsOfJoin(ws[1..], sep);
      WordsSplit(ws[0], sep, JoinWith(ws[1..], sep));
      assert ws == [ws[0]] + ws[1..];
    }
  }

  /** A run replacement over a leading word copies the word. */
  lemma {:induction false} RunsCopyWord(w: string, rest: string, sep: char, inRun: bool)
    requires IsWord(w)
    ensures ReplaceRuns(w + rest, NotAlnum, sep, inRun) == w + ReplaceRuns(rest, NotAlnum, sep, false)
    decreases |w|
  {
    var s := w + rest;
    assert s[0] == w[0] && s[1..] == w[1..] + rest;
    if |w| > 1 {
      assert IsWord(w[1..]) by {
        forall i | 0 <= i < |w[1..]| ensures IsAlnum(w[1..][i]) { assert w[1..][i] == w[i + 1]; }
      }
      RunsCopyWord(w[1..], rest, sep, false);
      assert w == [w[0]] + w[1..];
    } else {
      assert w[1..] + rest == rest && w == [w[0]];
    }
  }

  /** A separator in front of text that does not start with one is dropped. */
  lemma EdgesAfterSep(v: string, sep: char)
    requires v == [] || v[0] != sep
    ensures StripEdges([sep] + v, sep) == StripEdges(v, sep)
  {
    assert ([sep] + v)[1..] == v;
  }

  /** A word, a separator and text that does not start with a separator: the
      edges come off the text only. */
  lemma EdgesAfterWord(w: string, v: string, sep: char)
    requires IsWord(w) && !IsAlnum(sep) && (v == [] || v[0] != sep)
    ensures StripEdges(w + [sep] + v, sep)
      == if v == [] then w else w + [sep] + StripEdges(v, sep)
    ensures v != [] ==> StripEdges(v, sep) != []
  {
    var s := w + [sep] + v;
    assert s[0] == w[0];
    if v == [] {
      assert s[..|s| - 1] == w;
    } else {
      assert s[|s| - 1] == v[|v| - 1];
      if v[|v| - 1] == sep {
        assert |v| > 1;
        assert s[..|s| - 1] == w + [sep] + v[..|v| - 1];
      }
    }
  }

  /** A word alone has no edge to drop. */
  lemma EdgesOfWord(w: string, sep: char)
    requires IsWord(w) && !IsAlnum(sep)
    ensures StripEdges(w, sep) == w
  {
    assert w[0] != sep && w[|w| - 1] != sep;
  }

  /** Replacing the runs of [^a-z0-9] by one separator and dropping a
      separator at each end gives exactly the words of the text joined by
      single separators. */
  lemma {:induction false} RunsWords(t: string, sep: char, inRun: bool)
    requires !IsAlnum(sep)
    ensures StripEdges(ReplaceRuns(t, NotAlnum, sep, inRun), sep) == JoinWith(Words(t), sep)
    decreases |t|
  {
    if t == [] {
    } else if !IsAlnum(t[0]) {
      var v := ReplaceRuns(t[1..], NotAlnum, sep, true);
      RunsWords(t[1..], sep, true);
      RunsShape(t[1..], sep, true);
      EdgesAfterSep(v, sep);
    } else {
      var n := LeadLen(t);
      var w, rest := t[..n], t[n..];
      assert t == w + rest;
      RunsCopyWord(w, rest, sep, inRun);
      assert Words(t) == [w] + Words(rest);
      if rest == [] {
        EdgesOfWord(w, sep);
      } else {
        RunsWords(rest, sep, false);
        WordThenRest(w, rest, sep);
      }
    }
  }

  /** The inductive step of RunsWords for a word followed by more text. */
  lemma WordThenRest(w: string, rest: string, sep: char)
    requires IsWord(w) && !IsAlnum(sep) && rest != [] && !IsAlnum(rest[0])
    requires StripEdges(ReplaceRuns(rest, NotAlnum, sep, false), sep) == JoinWith(Words(rest), sep)
    ensures StripEdges(w + ReplaceRuns(rest, NotAlnum, sep, false), sep) == JoinWith([w] + Words(rest), sep)
  {
    var v := ReplaceRuns(rest[1..], NotAlnum, sep, true);
    assert ReplaceRuns(rest, NotAlnum, sep, false) == [sep] + v;
    RunsShape(rest[1..], sep, true);
    EdgesAfterSep(v, sep);
    EdgesAfterWord(w, v, sep);
    assert w + ([sep] + v) == w + [sep] + v;
    if v != [] {
      assert Words(rest) != [];
      assert ([w] + Words(rest))[1..] == Words(rest);
    }
  }

  /** The key is the words of the lower-cased, apostrophe-free text joined by
      single spaces. */
  lemma NormWords(s: string)
    ensures Norm(s) == JoinWith(Words(KeySource(s)), ' ')
  {
    NormAsEdges(s);
    RunsWords(KeySource(s), ' ', false);
  }

  /** The slug is the words of the lower-cased text joined by single hyphens. */
  lemma SlugifyWords(s: string)
    ensures Slugify(s) == JoinWith(Words(Lowered(s)), '-')
  {
    SlugifyAsEdges(s);
    RunsWords(Lowered(s), '-', false);
  }

  /** One character that the key turns into a separator splits the text into
      two parts whose keys are joined by one space; an empty part contributes
      nothing. */
  lemma NormSeparates(a: string, c: char, b: string)
    requires |KeySource([c])| == 1 && !IsAlnum(KeySource([c])[0])
    ensures Norm(a + [c] + b) ==
      if Norm(a) == "" then Norm(b)
      else if Norm(b) == "" then Norm(a)
      else Norm(a) + " " + Norm(b)
  {
    var d := KeySource([c])[0];
    KeySourceAround(a, c, b);
    assert KeySource([c]) == [d];
    NormWords(a + [c] + b);
    NormWords(a);
    NormWords(b);
    WordsSplit(KeySource(a), d, KeySource(b));
    JoinAround(Words(KeySource(a)), Words(KeySource(b)), ' ');
  }

  /** The same for the slug, with one hyphen between the parts. */
  lemma SlugifySeparates(a: string, c: char, b: string)
    requires |Lowered([c])| == 1 && !IsAlnum(Lowered([c])[0])
    ensures Slugify(a + [c] + b) ==
      if Slugify(a) == "" then Slugify(b)
      else if Slugify(b) == "" then Slugify(a)
      else Slugify(a) + "-" + Slugify(b)
  {
    var d := Lowered([c])[0];
    LoweredConcat(a + [c], b);
    LoweredConcat(a, [c]);
    assert Lowered([c]) == [d];
    SlugifyWords(a + [c] + b);
    SlugifyWords(a);
    SlugifyWords(b);
    WordsSplit(Lowered(a), d, Lowered(b));
    JoinAround(Words(Lowered(a)), Words(Lowered(b)), '-');
  }

  lemma KeySourceAround(a: string, c: char, b: string)
    ensures KeySource(a + [c] + b) == KeySource(a) + KeySource([c]) + KeySource(b)
  {
    KeySourceConcat(a + [c], b);
    KeySourceConcat(a, [c]);
  }

  lemma JoinAround(xs: seq<string>, ys: seq<string>, sep: char)
    requires forall w | w in xs :: IsWord(w)
    requires forall w | w in ys :: IsWord(w)
    ensures JoinWith(xs + ys, sep) ==
      if JoinWith(xs, sep) == "" then JoinWith(ys, sep)
      else if JoinWith(ys, sep) == "" then JoinWith(xs, sep)
      else JoinWith(xs, sep) + [sep] + JoinWith(ys, sep)
  {
    if xs == [] {
      assert xs + ys == ys;
    } else if ys == [] {
      assert xs + ys == xs;
    } else {
      JoinWithConcat(xs, ys, sep);
    }
  }

  lemma SeparatorKeys(c: char)
    requires c == ' ' || c == '-'
    ensures KeySource([c]) == [c] && Lowered([c]) == [c]
  {
    assert IsPlain([c]);
    KeySourcePlain([c]);
    LoweredPlain([c]);
  }

  /** Hyphenated and spaced spellings of a name share their key. */
  lemma NormHyphenOrSpace(a: string, b: string)
    ensures Norm(a + "-" + b) == Norm(a + " " + b)
  {
    SeparatorKeys('-');
    SeparatorKeys(' ');
    NormSeparates(a, '-', b);
    NormSeparates(a, ' ', b);
  }

  /** Hyphenated and spaced spellings of a name share their slug. */
  lemma SlugifyHyphenOrSpace(a: string, b: string)
    ensures Slugify(a + "-" + b) == Slugify(a + " " + b)
  {
    SeparatorKeys('-');
    SeparatorKeys(' ');
    SlugifySeparates(a, '-', b);
    SlugifySeparates(a, ' ', b);
  }
}
