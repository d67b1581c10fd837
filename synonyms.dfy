/** synonymsFromName: the aliases of one place name, in insertion order and
    without repetition, including the pre-merger parish names recovered from a
    name of the form "União das Freguesias de X e Y". */
module SynonymGenerator {
  import opened Normalize

  datatype Option<T> = None | Some(value: T)

  /** The merged-parish prefix, as it reads once normalised. */
  const UnionPrefix: string := "uniao das freguesias "

  /** The alternatives of the group (de|da|do|das|dos), in the order tried. */
  const Articles: seq<string> := ["de", "da", "do", "das", "dos"]

  /** The conjunction that joins the names of the merged parishes. */
  const Conjunction: string := " e "

  // ---------------------------------------------------------------------------
  // Searching and splitting
  // ---------------------------------------------------------------------------

  predicate OccursAt(s: string, pat: string, j: int) {
    0 <= j && j + |pat| <= |s| && s[j..j + |pat|] == pat
  }

  lemma OccursShift(s: string, pat: string)
    requires s != []
    ensures forall j | 1 <= j :: OccursAt(s, pat, j) == OccursAt(s[1..], pat, j - 1)
  {
    forall j | 1 <= j ensures OccursAt(s, pat, j) == OccursAt(s[1..], pat, j - 1) {
      if j + |pat| <= |s| {
        assert s[1..][j - 1..j - 1 + |pat|] == s[j..j + |pat|];
      }
    }
  }

  lemma OccursInPrefix(s: string, pat: string, i: nat, j: int)
    requires i <= |s| && OccursAt(s[..i], pat, j)
    ensures OccursAt(s, pat, j) && j + |pat| <= i
  {
    assert s[..i][j..j + |pat|] == s[j..j + |pat|];
  }

  /** String.prototype.indexOf: the first position where `pat` occurs. */
  function Find(s: string, pat: string): (r: Option<nat>)
    requires pat != []
    ensures r.Some? ==> OccursAt(s, pat, r.value)
    ensures forall j | 0 <= j && (r.None? || j < r.value) :: !OccursAt(s, pat, j)
    decreases |s|
  {
    if |s| < |pat| then None
    else if s[..|pat|] == pat then Some(0)
    else
      assert !OccursAt(s, pat, 0) by { assert s[0..|pat|] == s[..|pat|]; }
      assert forall j | 1 <= j :: OccursAt(s, pat, j) == OccursAt(s[1..], pat, j - 1) by {
        OccursShift(s, pat);
      }
      match Find(s[1..], pat)
      case None => None
      case Some(i) => Some(i + 1)
  }

  /** The inverse of Split: the parts joined by the conjunction. */
  function Join(parts: seq<string>): string
    requires |parts| >= 1
    decreases |parts|
  {
    if |parts| == 1 then parts[0] else parts[0] + Conjunction + Join(parts[1..])
  }

  /** `s.split(" e ")`: the pieces between the non-overlapping occurrences of
      the conjunction, found left to right. */
  function Split(s: string): (parts: seq<string>)
    ensures |parts| >= 1
    ensures Join(parts) == s
    ensures forall p | p in parts :: Find(p, Conjunction).None?
    ensures |parts| > 1 <==> Find(s, Conjunction).Some?
    ensures |parts| > 1 ==> Find(s, Conjunction) == Some(|parts[0]|)
    ensures forall i | 0 <= i < |parts| - 1 :: Find(Join(parts[i..]), Conjunction) == Some(|parts[i]|)
    decreases |s|
  {
    match Find(s, Conjunction)
    case None => [s]
    case Some(i) =>
      var head := s[..i];
      assert Find(head, Conjunction).None? by {
        forall j ensures !OccursAt(head, Conjunction, j) {
          if OccursAt(head, Conjunction, j) { OccursInPrefix(s, Conjunction, i, j); }
        }
      }
      assert s == head + Conjunction + s[i + 3..];
      var tl := Split(s[i + 3..]);
      var r := [head] + tl;
      assert r[1..] == tl;
      assert forall k | 1 <= k < |r| :: r[k..] == tl[k - 1..];
      r
  }

  // ---------------------------------------------------------------------------
  // The merged-parish prefix
  // ---------------------------------------------------------------------------

  /** The length of the first article of `arts` that `rest` starts with and that
      is followed by whitespace: how the group (de|da|do|das|dos)\s backtracks. */
  function ArticleEnd(rest: string, arts: seq<string>): (r: Option<nat>)
    ensures r.Some? ==> r.value < |rest| && IsSpace(rest[r.value]) && rest[..r.value] in arts
    ensures r.None? ==> forall w | w in arts :: !(|w| < |rest| && w <= rest && IsSpace(rest[|w|]))
    decreases |arts|
  {
    if arts == [] then None
    else if |arts[0]| < |rest| && arts[0] <= rest && IsSpace(rest[|arts[0]|]) then
      assert rest[..|arts[0]|] == arts[0];
      Some(|arts[0]|)
    else ArticleEnd(rest, arts[1..])
  }

  /** main.js:31: when the key starts with the merged-parish prefix, one of
      the articles and at least one white-space character, all of that is
      removed; any other key is left as it is. */
  function StripUnionPrefix(key: string): string {
    if UnionPrefix <= key then
      var rest := key[|UnionPrefix|..];
      match ArticleEnd(rest, Articles)
      case None => key
      case Some(n) => TrimStart(rest[n..])
    else key
  }

  // ---------------------------------------------------------------------------
  // An insertion-ordered set of strings
  // ---------------------------------------------------------------------------

  predicate Distinct(xs: seq<string>) {
    forall i, j | 0 <= i < j < |xs| :: xs[i] != xs[j]
  }

  /** Set.prototype.add */
  function Add(xs: seq<string>, x: string): seq<string> {
    if x in xs then xs else xs + [x]
  }

  function AddAll(xs: seq<string>, ys: seq<string>): seq<string>
    decreases |ys|
  {
    if ys == [] then xs else AddAll(Add(xs, ys[0]), ys[1..])
  }

  /** `.filter(Boolean)` on strings: the empty strings dropped, order kept. */
  function RemoveEmpty(xs: seq<string>): (r: seq<string>)
    ensures forall x :: x in r <==> x in xs && x != ""
    ensures xs != [] && xs[0] != "" ==> r != [] && r[0] == xs[0]
    decreases |xs|
  {
    if xs == [] then []
    else (if xs[0] == "" then [] else [xs[0]]) + RemoveEmpty(xs[1..])
  }

  /** The non-empty keys of the pieces, in order. */
  function PartKeys(parts: seq<string>): seq<string>
    decreases |parts|
  {
    if parts == [] then []
    else (if Norm(parts[0]) == "" then [] else [Norm(parts[0])]) + PartKeys(parts[1..])
  }

  // ---------------------------------------------------------------------------
  // synonymsFromName
  // ---------------------------------------------------------------------------

  /** The normalised name with the merged-parish prefix removed. */
  function Cleaned(name: string): string {
    StripUnionPrefix(Norm(name))
  }

  /** The set of main.js:26-40 before the empty strings are filtered out:
      the key, the cleaned key, then the keys of the pieces when the cleaned
      key holds the conjunction, each added only when new. */
  function Collected(name: string): seq<string> {
    var seeded := Add(Add([], Norm(name)), Cleaned(name));
    if Find(Cleaned(name), Conjunction).Some? then AddAll(seeded, PartKeys(Split(Cleaned(name))))
    else seeded
  }

  /** The aliases synonymsFromName returns for `name`. */
  function Synonyms(name: string): seq<string> {
    RemoveEmpty(Collected(name))
  }

  lemma PartKeysStep(acc: seq<string>, parts: seq<string>, i: nat)
    requires i < |parts|
    ensures AddAll(acc, PartKeys(parts[i..]))
         == AddAll(if Norm(parts[i]) == "" then acc else Add(acc, Norm(parts[i])), PartKeys(parts[i + 1..]))
  {
    var t := parts[i..];
    assert t[0] == parts[i] && t[1..] == parts[i + 1..];
    var rest := PartKeys(parts[i + 1..]);
    if Norm(parts[i]) != "" {
      var ks := [Norm(parts[i])] + rest;
      assert PartKeys(t) == ks;
      assert ks[0] == Norm(parts[i]) && ks[1..] == rest;
    } else {
      assert PartKeys(t) == [] + rest == rest;
    }
  }

  /** The forEach of synonymsFromName: adds the non-empty key of each piece. */
  method AddPartKeys(found: seq<string>, parts: seq<string>) returns (r: seq<string>)
    ensures r == AddAll(found, PartKeys(parts))
  {
    r := found;
    var i := 0;
    while i < |parts|
      invariant 0 <= i <= |parts|
      invariant AddAll(r, PartKeys(parts[i..])) == AddAll(found, PartKeys(parts))
    {
      var p := Norm(parts[i]);
      PartKeysStep(r, parts, i);
      if p != "" {
        r := Add(r, p);
      }
      i := i + 1;
    }
  }

  /** synonymsFromName, building its set step by step. */
  method SynonymsFromName(name: string) returns (syns: seq<string>)
    ensures syns == Synonyms(name)
  {
    var found: seq<string> := [];
    var base := Norm(name);
    found := Add(found, base);
    var cleaned := StripUnionPrefix(base);
    found := Add(found, cleaned);
    if Find(cleaned, Conjunction).Some? {
      found := AddPartKeys(found, Split(cleaned));
    }
    syns := RemoveEmpty(found);
  }

  // ---------------------------------------------------------------------------
  // Lemmas: the insertion-ordered set
  // ---------------------------------------------------------------------------

  lemma AddFacts(xs: seq<string>, y: string)
    ensures forall x :: x in Add(xs, y) <==> x in xs || x == y
    ensures |xs| <= |Add(xs, y)| && Add(xs, y)[..|xs|] == xs
    ensures Distinct(xs) ==> Distinct(Add(xs, y))
  {
  }

  /** Adding a sequence of elements keeps what was there, in front and in
      order, adds exactly the new ones, and never repeats an element. */
  lemma {:induction false} AddAllFacts(xs: seq<string>, ys: seq<string>)
    ensures forall x :: x in AddAll(xs, ys) <==> x in xs || x in ys
    ensures |xs| <= |AddAll(xs, ys)| && AddAll(xs, ys)[..|xs|] == xs
    ensures Distinct(xs) ==> Distinct(AddAll(xs, ys))
    decreases |ys|
  {
    if ys != [] {
      var zs := Add(xs, ys[0]);
      AddFacts(xs, ys[0]);
      AddAllFacts(zs, ys[1..]);
      assert forall y :: y in ys <==> y == ys[0] || y in ys[1..] by {
        assert ys == [ys[0]] + ys[1..];
      }
      var r := AddAll(zs, ys[1..]);
      assert r[..|zs|][..|xs|] == r[..|xs|];
    }
  }

  lemma DistinctCons(a: string, r: seq<string>)
    requires Distinct(r) && a !in r
    ensures Distinct([a] + r)
  {
    var s := [a] + r;
    forall i, j | 0 <= i < j < |s| ensures s[i] != s[j] {
      assert s[j] == r[j - 1];
      if i > 0 { assert s[i] == r[i - 1]; }
    }
  }

  lemma {:induction false} RemoveEmptyDistinct(xs: seq<string>)
    requires Distinct(xs)
    ensures Distinct(RemoveEmpty(xs))
    decreases |xs|
  {
    if xs != [] {
      assert Distinct(xs[1..]) by {
        forall i, j | 0 <= i < j < |xs[1..]| ensures xs[1..][i] != xs[1..][j] {
          assert xs[1..][i] == xs[i + 1] && xs[1..][j] == xs[j + 1];
        }
      }
      RemoveEmptyDistinct(xs[1..]);
      if xs[0] != "" {
        assert xs[0] !in xs[1..] by {
          forall j | 0 <= j < |xs[1..]| ensures xs[1..][j] != xs[0] { assert xs[1..][j] == xs[j + 1]; }
        }
        DistinctCons(xs[0], RemoveEmpty(xs[1..]));
      } else {
        assert RemoveEmpty(xs) == RemoveEmpty(xs[1..]);
      }
    }
  }

  /** Filtering one more element appends it when it is not empty. */
  lemma {:induction false} RemoveEmptySnoc(xs: seq<string>, x: string)
    ensures RemoveEmpty(xs + [x]) == RemoveEmpty(xs) + (if x == "" then [] else [x])
    decreases |xs|
  {
    if xs == [] {
      assert [x][1..] == [];
    } else {
      assert (xs + [x])[1..] == xs[1..] + [x];
      RemoveEmptySnoc(xs[1..], x);
    }
  }

  lemma {:induction false} PartKeysContents(parts: seq<string>)
    ensures forall x :: x in PartKeys(parts) <==> x != "" && exists p | p in parts :: Norm(p) == x
    decreases |parts|
  {
    if parts != [] {
      PartKeysContents(parts[1..]);
      assert forall p :: p in parts <==> p == parts[0] || p in parts[1..] by {
        assert parts == [parts[0]] + parts[1..];
      }
    }
  }

  // ---------------------------------------------------------------------------
  // Lemmas: synonymsFromName
  // ---------------------------------------------------------------------------

  lemma CollectedFacts(name: string)
    ensures Synonyms(name) == RemoveEmpty(Collected(name))
    ensures Distinct(Collected(name))
    ensures Collected(name) != [] && Collected(name)[0] == Norm(name)
    ensures forall x :: x in Collected(name) <==>
      x == Norm(name) || x == Cleaned(name)
      || (Find(Cleaned(name), Conjunction).Some? && x in PartKeys(Split(Cleaned(name))))
  {
    var seeded := Add(Add([], Norm(name)), Cleaned(name));
    AddFacts([], Norm(name));
    AddFacts([Norm(name)], Cleaned(name));
    assert seeded[0] == Norm(name);
    if Find(Cleaned(name), Conjunction).Some? {
      AddAllFacts(seeded, PartKeys(Split(Cleaned(name))));
      assert Collected(name)[..|seeded|][0] == Collected(name)[0];
    }
  }

  /** The aliases never repeat and never include the empty string. */
  lemma SynonymsDistinct(name: string)
    ensures Distinct(Synonyms(name))
    ensures "" !in Synonyms(name)
  {
    CollectedFacts(name);
    RemoveEmptyDistinct(Collected(name));
  }

  /** When the name has a non-empty key, that key is the first alias. */
  lemma SynonymsFirst(name: string)
    requires Norm(name) != ""
    ensures Synonyms(name) != [] && Synonyms(name)[0] == Norm(name)
  {
    CollectedFacts(name);
  }

  /** Exactly the non-empty ones among the key of the name, the key without the
      merged-parish prefix and, when that contains the conjunction, the keys of
      the pieces between the conjunctions. */
  lemma SynonymsMembers(name: string, x: string)
    ensures x in Synonyms(name) <==>
      x != "" &&
      (x == Norm(name) || x == Cleaned(name)
       || (Find(Cleaned(name), Conjunction).Some?
           && exists p | p in Split(Cleaned(name)) :: Norm(p) == x))
  {
    CollectedFacts(name);
    PartKeysContents(Split(Cleaned(name)));
  }

  // ---------------------------------------------------------------------------
  // Lemmas: the merged-parish prefix
  // ---------------------------------------------------------------------------

  /** In a key, white space is a single space followed by the next word. */
  lemma SkipSpace(k: string, m: nat)
    requires IsCanonical(k, ' ') && m < |k| && IsSpace(k[m])
    ensures m + 1 < |k| && TrimStart(k[m..]) == k[m + 1..] && IsCanonical(k[m + 1..], ' ')
  {
    var x := k[m..];
    assert k[m] == ' ';
    assert x[1..] == k[m + 1..];
    assert k[m + 1] != ' ';
    assert TrimStart(x) == TrimStart(x[1..]);
    assert x[1..][0] == k[m + 1];
    SuffixCanonical(k, m + 1, ' ');
  }

  /** Removing the prefix from a key leaves a key. */
  lemma StripUnionPrefixCanonical(k: string)
    requires IsCanonical(k, ' ')
    ensures IsCanonical(StripUnionPrefix(k), ' ')
  {
    if UnionPrefix <= k {
      var rest := k[|UnionPrefix|..];
      match ArticleEnd(rest, Articles)
      case None =>
      case Some(n) =>
        var m := |UnionPrefix| + n;
        assert rest[n..] == k[m..];
        SkipSpace(k, m);
    }
  }

  /** Every alias is itself a key: normalising it again changes nothing. */
  lemma SynonymsAreKeys(name: string)
    ensures forall x | x in Synonyms(name) :: IsCanonical(x, ' ') && Norm(x) == x
  {
    NormCanonical(name);
    StripUnionPrefixCanonical(Norm(name));
    forall x | x in Synonyms(name) ensures IsCanonical(x, ' ') && Norm(x) == x {
      SynonymsMembers(name, x);
      if x != Norm(name) && x != Cleaned(name) {
        var p :| p in Split(Cleaned(name)) && Norm(p) == x;
        NormCanonical(p);
      }
      NormFixed(x);
    }
  }

  /** The group (de|da|do|das|dos) followed by white space matches exactly
      the article that is there. */
  lemma ArticleEndOf(w: string, tail: string)
    requires w in Articles
    ensures ArticleEnd(w + " " + tail, Articles) == Some(|w|)
  {
    var rest := w + " " + tail;
    assert rest[|w|] == ' ' && rest[..|w|] == w;
    ArticlesUnspaced();
    ArticleEndUnique(rest, Articles, w);
  }

  lemma ArticlesUnspaced()
    ensures forall a | a in Articles :: forall i | 0 <= i < |a| :: !IsSpace(a[i])
  {
  }

  /** When the words contain no white space, at most one of them can start
      the text followed by white space, so the group matches that one. */
  lemma ArticleEndUnique(rest: string, arts: seq<string>, w: string)
    requires forall a | a in arts :: forall i | 0 <= i < |a| :: !IsSpace(a[i])
    requires w in arts && |w| < |rest| && w <= rest && IsSpace(rest[|w|])
    ensures ArticleEnd(rest, arts) == Some(|w|)
  {
  }

  /** Removing the prefix of a key "uniao das freguesias <article> <rest>"
      leaves the rest, which is not empty. */
  lemma StripUnionPrefixOf(k: string, w: string, rest: string)
    requires IsCanonical(k, ' ')
    requires w in Articles
    requires k == UnionPrefix + w + " " + rest
    ensures rest != "" && StripUnionPrefix(k) == rest
  {
    var m := |UnionPrefix| + |w|;
    var r := k[|UnionPrefix|..];
    assert UnionPrefix <= k;
    assert r == w + " " + rest;
    ArticleEndOf(w, rest);
    assert r[|w|..] == k[m..];
    SkipSpace(k, m);
    assert k[m + 1..] == rest;
  }

  /** The prefix replacement strips nothing else: when it changes a key, the
      key reads "uniao das freguesias <article> <rest>" and what is left is
      the rest. */
  lemma StripUnionPrefixOnly(k: string)
    requires IsCanonical(k, ' ')
    ensures StripUnionPrefix(k) != k ==>
      exists w, rest :: w in Articles && k == UnionPrefix + w + " " + rest && StripUnionPrefix(k) == rest
  {
    if UnionPrefix <= k {
      var r := k[|UnionPrefix|..];
      match ArticleEnd(r, Articles)
      case None =>
      case Some(n) =>
        var w, rest := UnionPrefixParts(k, n);
    }
  }

  lemma UnionPrefixParts(k: string, n: nat) returns (w: string, rest: string)
    requires IsCanonical(k, ' ') && UnionPrefix <= k
    requires ArticleEnd(k[|UnionPrefix|..], Articles) == Some(n)
    ensures w in Articles && k == UnionPrefix + w + " " + rest && StripUnionPrefix(k) == rest
  {
    var p := |UnionPrefix|;
    StripAfterArticle(k, n);
    w, rest := k[p..][..n], k[p + n + 1..];
    PieceConcat(k, p, n);
    assert k[..p] == UnionPrefix;
  }

  lemma StripAfterArticle(k: string, n: nat)
    requires IsCanonical(k, ' ') && UnionPrefix <= k
    requires ArticleEnd(k[|UnionPrefix|..], Articles) == Some(n)
    ensures |UnionPrefix| + n + 1 < |k| && k[|UnionPrefix| + n] == ' '
    ensures StripUnionPrefix(k) == k[|UnionPrefix| + n + 1..]
  {
    var m := |UnionPrefix| + n;
    assert k[|UnionPrefix|..][n..] == k[m..];
    SkipSpace(k, m);
  }

  lemma PieceConcat(k: string, p: nat, n: nat)
    requires p + n < |k| && k[p + n] == ' '
    ensures k == k[..p] + k[p..][..n] + " " + k[p + n + 1..]
  {
    assert k[p..][..n] == k[p..p + n];
  }

  /** For a key "uniao das freguesias <article> <rest>", the rest is an alias. */
  lemma SynonymsUnionRemainder(name: string, w: string, rest: string)
    requires w in Articles
    requires Norm(name) == UnionPrefix + w + " " + rest
    ensures rest != "" && Cleaned(name) == rest
    ensures rest in Synonyms(name)
  {
    NormCanonical(name);
    StripUnionPrefixOf(Norm(name), w, rest);
    SynonymsMembers(name, rest);
  }

  // ---------------------------------------------------------------------------
  // Lemmas: the pre-merger parish names
  // ---------------------------------------------------------------------------

  lemma SliceCanonical(k: string, i: nat, j: nat, sep: char)
    requires IsCanonical(k, sep)
    requires i <= j <= |k|
    requires i < j ==> k[i] != sep && k[j - 1] != sep
    ensures IsCanonical(k[i..j], sep)
  {
    var t := k[i..j];
    forall n | 0 <= n < |t| ensures IsAlnum(t[n]) || t[n] == sep { assert t[n] == k[i + n]; }
    forall n | 0 <= n < |t| - 1 ensures !(t[n] == sep && t[n + 1] == sep) {
      assert t[n] == k[i + n] && t[n + 1] == k[i + n + 1];
    }
  }

  /** When A followed by a space holds no " e ", the first " e " of
      A + " e " + B is the one right after A. */
  lemma FindAfterPiece(a: string, b: string)
    requires forall j :: !OccursAt(a + " ", Conjunction, j)
    ensures Find(a + Conjunction + b, Conjunction) == Some(|a|)
  {
    var rest := a + Conjunction + b;
    assert rest[|a|..|a| + 3] == Conjunction;
    assert OccursAt(rest, Conjunction, |a|);
    forall j | 0 <= j < |a| ensures !OccursAt(rest, Conjunction, j) {
      if j + 3 <= |a| + 1 {
        assert rest[j..j + 3] == (a + " ")[j..j + 3];
        assert !OccursAt(a + " ", Conjunction, j);
      } else {
        var c1 := rest[j + 1];
        assert c1 == ' ';
        assert rest[j..j + 3][1] == c1;
        assert Conjunction[1] == 'e';
      }
    }
  }

  /** Such a remainder splits into exactly its two pieces. */
  lemma SplitPair(a: string, b: string)
    requires forall j :: !OccursAt(a + " ", Conjunction, j)
    requires forall j :: !OccursAt(b, Conjunction, j)
    ensures Split(a + Conjunction + b) == [a, b]
  {
    var rest := a + Conjunction + b;
    FindAfterPiece(a, b);
    assert rest[..|a|] == a;
    assert rest[|a| + 3..] == b;
    assert Find(b, Conjunction).None?;
    assert Split(b) == [b];
  }

  /** The two pieces of a canonical merged-parish key are keys themselves. */
  lemma MergedPiecesCanonical(k: string, w: string, a: string, b: string)
    requires IsCanonical(k, ' ')
    requires k == UnionPrefix + w + " " + a + Conjunction + b
    ensures a != "" && IsCanonical(a, ' ')
    ensures b != "" && IsCanonical(b, ' ')
  {
    var m := |UnionPrefix| + |w| + 1;
    assert k[m - 1] == ' ';
    assert k[m..m + |a|] == a;
    assert k[m + |a|] == ' ';
    assert k[m] != ' ';
    assert k[m + |a| + 3..] == b;
    assert k[m + |a| + 2] == ' ';
    SliceCanonical(k, m, m + |a|, ' ');
    SliceCanonical(k, m + |a| + 3, |k|, ' ');
  }

  /** For a key "uniao das freguesias <article> A e B" whose pieces A and B
      hold no further conjunction, both A and B are aliases: the names of the
      two parishes before the merger. */
  lemma SynonymsMergedPair(name: string, w: string, a: string, b: string)
    requires w in Articles
    requires Norm(name) == UnionPrefix + w + " " + a + Conjunction + b
    requires forall j :: !OccursAt(a + " ", Conjunction, j)
    requires forall j :: !OccursAt(b, Conjunction, j)
    ensures Split(Cleaned(name)) == [a, b]
    ensures a != "" && a in Synonyms(name)
    ensures b != "" && b in Synonyms(name)
  {
    var rest := a + Conjunction + b;
    assert Norm(name) == UnionPrefix + w + " " + rest;
    SynonymsUnionRemainder(name, w, rest);
    FindAfterPiece(a, b);
    SplitPair(a, b);
    NormCanonical(name);
    MergedPiecesCanonical(Norm(name), w, a, b);
    NormFixed(a);
    NormFixed(b);
    SynonymsMembers(name, a);
    SynonymsMembers(name, b);
    assert a in Split(Cleaned(name)) && b in Split(Cleaned(name));
  }

  /** " e " occurs exactly where a space, an 'e' and a space follow each other. */
  lemma ConjunctionChars(s: string)
    ensures forall j :: OccursAt(s, Conjunction, j) <==>
      0 <= j && j + 3 <= |s| && s[j] == ' ' && s[j + 1] == 'e' && s[j + 2] == ' '
  {
    forall j ensures OccursAt(s, Conjunction, j) <==>
      0 <= j && j + 3 <= |s| && s[j] == ' ' && s[j + 1] == 'e' && s[j + 2] == ' '
    {
      if 0 <= j && j + 3 <= |s| {
        var w := s[j..j + 3];
        assert w[0] == s[j] && w[1] == s[j + 1] && w[2] == s[j + 2];
        assert |w| == 3;
        if s[j] == ' ' && s[j + 1] == 'e' && s[j + 2] == ' ' { assert w == Conjunction; }
        if w == Conjunction { assert Conjunction[1] == 'e'; }
      }
    }
  }

  /** Neither name of the merged parish below contains the conjunction. */
  lemma ExampleNamesFree(a: string)
    requires a == "santo antonio dos cavaleiros " || a == "frielas"
    ensures forall j :: !OccursAt(a, Conjunction, j)
  {
    ConjunctionChars(a);
    forall j | 0 <= j && j + 3 <= |a| ensures !OccursAt(a, Conjunction, j) {
      var x, y, z := a[j], a[j + 1], a[j + 2];
      assert !(x == ' ' && y == 'e' && z == ' ');
    }
  }

  /** The merged parish of Santo Antonio dos Cavaleiros and Frielas (Loures). */
  lemma MergedParishExample(name: string, w: string, a: string, b: string)
    requires w == "de" && a == "santo antonio dos cavaleiros" && b == "frielas"
    requires Norm(name) == UnionPrefix + w + " " + a + Conjunction + b
    ensures Cleaned(name) == a + Conjunction + b
    ensures Split(Cleaned(name)) == [a, b]
    ensures a in Synonyms(name) && b in Synonyms(name)
  {
    ExampleNamesFree(a + " ");
    ExampleNamesFree(b);
    assert w == Articles[0];
    SynonymsMergedPair(name, w, a, b);
  }
}
