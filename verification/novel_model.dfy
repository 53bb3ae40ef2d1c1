/** The Novel document: slug generation from the title, the pre-save hook
    that picks a slug no other novel holds, and the schema's validation. */
module NovelModel {
  import opened Wrappers
  import opened JsText
  import opened Documents

  /** The schema default for `coverImage`. */
  const DefaultCoverImage: string := "https://via.placeholder.com/300x400?text=小说封面"

  /** `substring(0, 100)` in `generateSlug`. */
  const MaxSlugLength: nat := 100

  /** A stored novel. `slug` is absent until the first save. */
  datatype Novel = Novel(
    title: string,
    slug: Option<string>,
    author: UserId,
    description: string,
    coverImage: string,
    tags: seq<string>,
    chapters: seq<ChapterId>,
    createdAt: int,
    updatedAt: int)

  // ---------------------------------------------------------------------
  // generateSlug
  // ---------------------------------------------------------------------

  /** A character of the regular-expression class `\w`. */
  predicate IsWordChar(c: char) {
    'a' <= c <= 'z' || 'A' <= c <= 'Z' || '0' <= c <= '9' || c == '_'
  }

  /** A character that may appear in a generated slug. */
  predicate IsSlugChar(c: char) {
    'a' <= c <= 'z' || '0' <= c <= '9' || c == '_' || c == '-'
  }

  /** `toLowerCase` on one character, restricted to the ASCII letters. */
  function Lower(c: char): (r: char)
    ensures IsWordChar(r) <==> IsWordChar(c)
    ensures IsWordChar(r) ==> IsSlugChar(r)
    ensures 'A' <= c <= 'Z' ==> r as int == c as int + 32
    ensures 'a' <= c <= 'z' || !IsWordChar(c) || '0' <= c <= '9' || c == '_' ==> r == c
  {
    if 'A' <= c <= 'Z' then (c as int - 'A' as int + 'a' as int) as char else c
  }

  function LowerAll(s: string): (r: string)
    ensures |r| == |s|
    ensures forall k :: 0 <= k < |s| ==> r[k] == Lower(s[k])
  {
    seq(|s|, k requires 0 <= k < |s| => Lower(s[k]))
  }

  /** The word characters of a string, in order. */
  function Words(s: string): (r: string)
    ensures |r| <= |s|
  {
    if s == [] then [] else (if IsWordChar(s[0]) then [s[0]] else []) + Words(s[1..])
  }

  lemma {:induction false} WordsAppend(a: string, b: string)
    ensures Words(a + b) == Words(a) + Words(b)
    decreases |a|
  {
    if a != [] {
      var w := if IsWordChar(a[0]) then [a[0]] else [];
      assert (a + b)[0] == a[0];
      assert (a + b)[1..] == a[1..] + b;
      WordsAppend(a[1..], b);
      calc {
        Words(a + b);
        w + Words(a[1..] + b);
        w + (Words(a[1..]) + Words(b));
        (w + Words(a[1..])) + Words(b);
        Words(a) + Words(b);
      }
    } else {
      assert a + b == b;
    }
  }

  /** A string of hyphens has no word character. */
  lemma {:induction false} HyphensHaveNoWords(s: string)
    requires forall k :: 0 <= k < |s| ==> s[k] == '-'
    ensures Words(s) == []
    decreases |s|
  {
    if s != [] {
      assert forall k :: 1 <= k < |s| ==> s[1..][k - 1] == s[k];
      HyphensHaveNoWords(s[1..]);
    }
  }

  /** Lowercasing commutes with picking out the word characters. */
  lemma {:induction false} LowerAllWords(s: string)
    ensures Words(LowerAll(s)) == LowerAll(Words(s))
    decreases |s|
  {
    if s != [] {
      var l := LowerAll(s);
      assert l[1..] == LowerAll(s[1..]);
      LowerAllWords(s[1..]);
      var w := if IsWordChar(s[0]) then [s[0]] else [];
      assert LowerAll(w + Words(s[1..])) == LowerAll(w) + LowerAll(Words(s[1..]));
    }
  }

  /** No two adjacent hyphens. */
  predicate NoDoubleHyphen(s: string) {
    forall k :: 0 <= k < |s| - 1 ==> !(s[k] == '-' && s[k + 1] == '-')
  }

  /** The shape every generated slug has: the slug alphabet, no `--`. */
  predicate SlugShaped(s: string) {
    (forall k :: 0 <= k < |s| ==> IsSlugChar(s[k])) && NoDoubleHyphen(s)
  }

  predicate HasWordChar(s: string) {
    exists k :: 0 <= k < |s| && IsWordChar(s[k])
  }

  predicate HasNonHyphen(s: string) {
    exists k :: 0 <= k < |s| && s[k] != '-'
  }

  /** Every contiguous piece of a slug-shaped string is slug-shaped. */
  lemma SliceShaped(s: string, i: nat, j: nat)
    requires SlugShaped(s)
    requires i <= j <= |s|
    ensures SlugShaped(s[i..j])
  {
    var r := s[i..j];
    assert forall k :: 0 <= k < |r| ==> r[k] == s[i + k];
  }

  /** Drops the run of non-word characters at the front. */
  function DropRun(s: string): (r: string)
    ensures |r| <= |s|
    ensures r == s[|s| - |r|..]
    ensures forall k :: 0 <= k < |s| - |r| ==> !IsWordChar(s[k])
    ensures r == [] || IsWordChar(r[0])
  {
    if s != [] && !IsWordChar(s[0]) then
      var r := DropRun(s[1..]);
      assert forall k :: 1 <= k < |s| ==> s[1..][k - 1] == s[k];
      r
    else s
  }

  /** Putting a slug character in front of a slug-shaped string keeps the
      shape unless it makes a `--`. */
  lemma ConsShaped(c: char, t: string)
    requires IsSlugChar(c) && SlugShaped(t)
    requires c == '-' ==> t == [] || t[0] != '-'
    ensures SlugShaped([c] + t)
  {
    var r := [c] + t;
    assert forall k :: 1 <= k < |r| ==> r[k] == t[k - 1];
  }

  lemma ConsNonHyphen(c: char, t: string)
    ensures HasNonHyphen([c] + t) <==> c != '-' || HasNonHyphen(t)
  {
    var r := [c] + t;
    assert forall k :: 1 <= k < |r| ==> r[k] == t[k - 1];
    if HasNonHyphen(t) {
      var k :| 0 <= k < |t| && t[k] != '-';
      assert r[k + 1] != '-';
    }
    if c != '-' {
      assert r[0] != '-';
    }
    if HasNonHyphen(r) && c == '-' {
      var k :| 0 <= k < |r| && r[k] != '-';
      assert t[k - 1] != '-';
    }
  }

  /** The dropped run holds no word character. */
  lemma DropRunKeepsWords(s: string)
    ensures HasWordChar(DropRun(s)) <==> HasWordChar(s)
  {
    var tail := DropRun(s);
    var d := |s| - |tail|;
    assert forall k :: 0 <= k < |tail| ==> tail[k] == s[d + k];
    if HasWordChar(s) {
      var k :| 0 <= k < |s| && IsWordChar(s[k]);
      assert IsWordChar(tail[k - d]);
    }
  }

  /** `.replace(/[\s\W-]+/g, '-')`: every maximal run of non-word characters
      (whitespace and `-` are non-word characters) becomes one hyphen. */
  function CollapseRuns(s: string): (r: string)
    requires forall k :: 0 <= k < |s| ==> IsWordChar(s[k]) ==> IsSlugChar(s[k])
    ensures SlugShaped(r)
    ensures s == [] <==> r == []
    ensures s != [] ==> r[0] == (if IsWordChar(s[0]) then s[0] else '-')
    ensures r != [] && r[0] != '-' ==> s != [] && r[0] == s[0]
    decreases |s|
  {
    if s == [] then []
    else if IsWordChar(s[0]) then
      assert forall k :: 1 <= k < |s| ==> s[1..][k - 1] == s[k];
      var t := CollapseRuns(s[1..]);
      ConsShaped(s[0], t);
      [s[0]] + t
    else
      var tail := DropRun(s);
      assert forall k :: 0 <= k < |tail| ==> tail[k] == s[|s| - |tail| + k];
      var t := CollapseRuns(tail);
      ConsShaped('-', t);
      ['-'] + t
  }

  /** The dropped run holds no word character. */
  lemma {:induction false} DropRunWords(s: string)
    ensures Words(DropRun(s)) == Words(s)
    decreases |s|
  {
    if s != [] && !IsWordChar(s[0]) {
      DropRunWords(s[1..]);
    }
  }

  /** Collapsing keeps the word characters in order: only hyphens stand
      where the non-word runs were. */
  lemma {:induction false} CollapseKeepsWordOrder(s: string)
    requires forall k :: 0 <= k < |s| ==> IsWordChar(s[k]) ==> IsSlugChar(s[k])
    ensures Words(CollapseRuns(s)) == Words(s)
    decreases |s|
  {
    if s != [] {
      if IsWordChar(s[0]) {
        assert forall k :: 1 <= k < |s| ==> s[1..][k - 1] == s[k];
        CollapseKeepsWordOrder(s[1..]);
        WordsAppend([s[0]], CollapseRuns(s[1..]));
      } else {
        var tail := DropRun(s);
        assert forall k :: 0 <= k < |tail| ==> tail[k] == s[|s| - |tail| + k];
        CollapseKeepsWordOrder(tail);
        WordsAppend(['-'], CollapseRuns(tail));
        DropRunWords(s);
      }
    }
  }

  /** Every non-word character replaced by `-`. */
  function HyphenateNonWords(s: string): (r: string)
    ensures |r| == |s|
  {
    seq(|s|, k requires 0 <= k < |s| => if IsWordChar(s[k]) then s[k] else '-')
  }

  /** Drops every `-` that directly follows another `-`. */
  function SqueezeHyphens(m: string): string {
    if |m| <= 1 then m
    else if m[0] == '-' && m[1] == '-' then SqueezeHyphens(m[1..])
    else [m[0]] + SqueezeHyphens(m[1..])
  }

  /** An independent reading of the replacement: turn every non-word
      character into `-`, then squeeze every run of hyphens into one. */
  lemma {:induction false} CollapseIsSqueeze(s: string)
    requires forall k :: 0 <= k < |s| ==> IsWordChar(s[k]) ==> IsSlugChar(s[k])
    ensures CollapseRuns(s) == SqueezeHyphens(HyphenateNonWords(s))
    decreases |s|
  {
    if s != [] {
      var m := HyphenateNonWords(s);
      assert m[1..] == HyphenateNonWords(s[1..]);
      assert forall k :: 1 <= k < |s| ==> s[1..][k - 1] == s[k];
      CollapseIsSqueeze(s[1..]);
      if |s| > 1 && !IsWordChar(s[0]) {
        assert DropRun(s) == DropRun(s[1..]);
        if IsWordChar(s[1]) {
          assert DropRun(s[1..]) == s[1..];
        }
      }
    }
  }

  /** Collapsing keeps every word character and adds none: the result has a
      character other than `-` exactly when the input has a word character. */
  lemma {:induction false} CollapseKeepsWords(s: string)
    requires forall k :: 0 <= k < |s| ==> IsWordChar(s[k]) ==> IsSlugChar(s[k])
    ensures HasNonHyphen(CollapseRuns(s)) <==> HasWordChar(s)
    decreases |s|
  {
    if s == [] {
    } else if IsWordChar(s[0]) {
      assert CollapseRuns(s)[0] == s[0];
    } else {
      var tail := DropRun(s);
      assert forall k :: 0 <= k < |tail| ==> tail[k] == s[|s| - |tail| + k];
      CollapseKeepsWords(tail);
      ConsNonHyphen('-', CollapseRuns(tail));
      DropRunKeepsWords(s);
    }
  }

  /** How many hyphens `s` starts with. */
  function LeadingHyphens(s: string): (n: nat)
    ensures n <= |s|
    ensures forall k :: 0 <= k < n ==> s[k] == '-'
    ensures n == |s| || s[n] != '-'
  {
    if s != [] && s[0] == '-' then
      assert forall k :: 1 <= k < |s| ==> s[1..][k - 1] == s[k];
      1 + LeadingHyphens(s[1..])
    else 0
  }

  /** Where the hyphens that end `s` begin, looking no further left than
      `lo`. */
  function TrailStart(s: string, lo: nat): (j: nat)
    requires lo <= |s|
    ensures lo <= j <= |s|
    ensures forall k :: j <= k < |s| ==> s[k] == '-'
    ensures j == lo || s[j - 1] != '-'
    decreases |s|
  {
    if |s| > lo && s[|s| - 1] == '-' then TrailStart(s[..|s| - 1], lo) else |s|
  }

  /** `s[i..j]` is `s` with only hyphens cut from either end. */
  predicate HyphenFramed(s: string, i: int, j: int) {
    0 <= i <= j <= |s| &&
    (forall k :: 0 <= k < i ==> s[k] == '-') &&
    (forall k :: j <= k < |s| ==> s[k] == '-')
  }

  /** `r` is a piece of `s` that only hyphens surround. */
  ghost predicate HyphenTrimmed(r: string, s: string) {
    exists i, j :: HyphenFramed(s, i, j) && r == s[i..j]
  }

  /** `.replace(/^-+|-+$/g, '')`: the leading and the trailing hyphens go. */
  function StripHyphens(s: string): (r: string)
    ensures HyphenTrimmed(r, s)
    ensures SlugShaped(s) ==> SlugShaped(r)
    ensures r == [] || (r[0] != '-' && r[|r| - 1] != '-')
    ensures r == [] <==> !HasNonHyphen(s)
  {
    var i := LeadingHyphens(s);
    var j := TrailStart(s, i);
    assert HyphenFramed(s, i, j);
    assert SlugShaped(s) ==> SlugShaped(s[i..j]) by {
      if SlugShaped(s) {
        SliceShaped(s, i, j);
      }
    }
    assert i < j ==> s[i..j][0] == s[i] && s[i..j][j - i - 1] == s[j - 1];
    assert HasNonHyphen(s) ==> i < j by {
      if HasNonHyphen(s) {
        var k :| 0 <= k < |s| && s[k] != '-';
      }
    }
    s[i..j]
  }

  /** The first `MaxSlugLength` characters. */
  function Truncate(s: string): (r: string)
    ensures |r| == if |s| <= MaxSlugLength then |s| else MaxSlugLength
    ensures r == s[..|r|]
  {
    if |s| <= MaxSlugLength then s else s[..MaxSlugLength]
  }

  /** Cutting hyphens from the ends keeps every word character. */
  lemma FramedWords(s: string, i: int, j: int)
    requires HyphenFramed(s, i, j)
    ensures Words(s[i..j]) == Words(s)
  {
    var front, mid, back := s[..i], s[i..j], s[j..];
    assert forall k :: 0 <= k < |front| ==> front[k] == s[k];
    assert forall k :: 0 <= k < |back| ==> back[k] == s[j + k];
    HyphensHaveNoWords(front);
    HyphensHaveNoWords(back);
    assert s == front + (mid + back);
    WordsAppend(front, mid + back);
    WordsAppend(mid, back);
  }

  /** Stripping hyphens keeps every word character, in order. */
  lemma StripKeepsWords(s: string)
    ensures Words(StripHyphens(s)) == Words(s)
  {
    var r := StripHyphens(s);
    var i, j :| HyphenFramed(s, i, j) && r == s[i..j];
    FramedWords(s, i, j);
  }

  /** The hyphen-stripped form `generateSlug` truncates: its word characters
      are the title's, lowercased and in order. */
  function Stripped(title: string): (r: string)
    ensures Words(r) == LowerAll(Words(title))
  {
    var lowered := LowerAll(title);
    var collapsed := CollapseRuns(lowered);
    LowerAllWords(title);
    CollapseKeepsWordOrder(lowered);
    StripKeepsWords(collapsed);
    StripHyphens(collapsed)
  }

  /** `generateSlug(title)`: lowercase, collapse every run of non-word
      characters into one hyphen, strip hyphens at both ends, then keep at
      most 100 characters. */
  function GenerateSlug(title: string): (r: string)
    ensures SlugShaped(r)
    ensures r == [] || r[0] != '-'
    ensures |r| <= MaxSlugLength
    ensures |Stripped(title)| <= MaxSlugLength ==> r == [] || r[|r| - 1] != '-'
    ensures r <= Stripped(title)
    ensures |r| == if |Stripped(title)| <= MaxSlugLength then |Stripped(title)| else MaxSlugLength
  {
    var stripped := Stripped(title);
    var r := Truncate(stripped);
    SliceShaped(stripped, 0, |r|);
    r
  }

  /** The slug's word characters are the title's, lowercased and in order,
      cut short only when the slug was truncated. */
  lemma SlugWords(title: string)
    ensures Words(GenerateSlug(title)) <= LowerAll(Words(title))
    ensures |Stripped(title)| <= MaxSlugLength ==> Words(GenerateSlug(title)) == LowerAll(Words(title))
  {
    PrefixWords(GenerateSlug(title), Stripped(title));
  }

  /** The word characters of a prefix are a prefix of the word characters. */
  lemma PrefixWords(a: string, b: string)
    requires a <= b
    ensures Words(a) <= Words(b)
  {
    assert b == a + b[|a|..];
    WordsAppend(a, b[|a|..]);
  }

  /** A title yields the empty slug exactly when it has no ASCII letter,
      digit or underscore; a title written only in Chinese characters is such
      a title. */
  lemma SlugEmptyIff(title: string)
    ensures GenerateSlug(title) == [] <==> !HasWordChar(title)
  {
    var lowered := LowerAll(title);
    assert HasWordChar(lowered) <==> HasWordChar(title) by {
      if HasWordChar(title) {
        var k :| 0 <= k < |title| && IsWordChar(title[k]);
        assert IsWordChar(lowered[k]);
      }
      if HasWordChar(lowered) {
        var k :| 0 <= k < |lowered| && IsWordChar(lowered[k]);
        assert IsWordChar(title[k]);
      }
    }
    CollapseKeepsWords(lowered);
  }

  /** Every operation of `generateSlug` leaves a slug-shaped string alone. */
  lemma {:induction false} CollapseFixesSlug(s: string)
    requires SlugShaped(s)
    ensures CollapseRuns(s) == s
    decreases |s|
  {
    if s != [] {
      SliceShaped(s, 1, |s|);
      CollapseFixesSlug(s[1..]);
      if !IsWordChar(s[0]) {
        assert s[0] == '-';
        assert DropRun(s) == s[1..];
      }
    }
  }

  /** Applying `generateSlug` to a slug that does not end in `-` gives the
      slug back. A slug cut at 100 characters may end in `-`, and then the
      second application strips it. */
  lemma SlugIdempotent(title: string)
    requires GenerateSlug(title) == [] || GenerateSlug(title)[|GenerateSlug(title)| - 1] != '-'
    ensures GenerateSlug(GenerateSlug(title)) == GenerateSlug(title)
  {
    var g := GenerateSlug(title);
    assert LowerAll(g) == g;
    CollapseFixesSlug(g);
    assert LeadingHyphens(g) == 0;
    assert TrailStart(g, 0) == |g|;
    assert g[0..|g|] == g;
  }

  // ---------------------------------------------------------------------
  // The suffix loop of the pre-save hook
  // ---------------------------------------------------------------------

  /** The slug tried on the k-th round of the loop: `${baseSlug}-${count}`. */
  function Candidate(base: string, k: nat): string {
    base + "-" + Decimal(k)
  }

  lemma CandidateInjective(base: string, a: nat, b: nat)
    requires Candidate(base, a) == Candidate(base, b)
    ensures a == b
  {
    var n := |base| + 1;
    assert Decimal(a) == Candidate(base, a)[n..];
    assert Decimal(b) == Candidate(base, b)[n..];
    DecimalInjective(a, b);
  }

  /** The candidates of rounds 1 to k. */
  function CandidateSet(base: string, k: nat): set<string> {
    set j | 1 <= j <= k :: Candidate(base, j)
  }

  lemma {:induction false} CandidateSetSize(base: string, k: nat)
    ensures |CandidateSet(base, k)| == k
  {
    if k > 0 {
      CandidateSetSize(base, k - 1);
      assert CandidateSet(base, k) == CandidateSet(base, k - 1) + {Candidate(base, k)};
      if Candidate(base, k) in CandidateSet(base, k - 1) {
        var j :| 1 <= j <= k - 1 && Candidate(base, k) == Candidate(base, j);
        CandidateInjective(base, k, j);
      }
    }
  }

  lemma SubsetSize<T>(a: set<T>, b: set<T>)
    requires a <= b
    ensures |a| <= |b|
  {
    assert b == a + (b - a);
  }

  /** The loop from round `k` on: the first candidate no other novel holds.
      It terminates because distinct rounds try distinct slugs and only
      finitely many slugs are taken. */
  function FirstFree(base: string, taken: set<string>, k: nat): (r: string)
    requires k >= 1
    requires forall j :: 1 <= j < k ==> Candidate(base, j) in taken
    ensures r !in taken
    ensures exists n :: n >= k && r == Candidate(base, n) && forall j :: 1 <= j < n ==> Candidate(base, j) in taken
    decreases |taken| + 1 - k
  {
    if Candidate(base, k) !in taken then Candidate(base, k)
    else
      assert CandidateSet(base, k) <= taken;
      CandidateSetSize(base, k);
      SubsetSize(CandidateSet(base, k), taken);
      FirstFree(base, taken, k + 1)
  }

  /** The slug the pre-save hook settles on: `baseSlug` when free, otherwise
      `baseSlug-k` for the least `k >= 1` that is free. */
  function ChooseSlug(base: string, taken: set<string>): (r: string)
    ensures r !in taken
    ensures r == base <==> base !in taken
    ensures r != base ==> exists n :: n >= 1 && r == Candidate(base, n) && forall j :: 1 <= j < n ==> Candidate(base, j) in taken
  {
    if base !in taken then base else FirstFree(base, taken, 1)
  }

  // ---------------------------------------------------------------------
  // Construction, validation and save
  // ---------------------------------------------------------------------

  /** The optional `title`, `description`, `coverImage` and `tags` of a
      request body. */
  datatype NovelFields = NovelFields(
    title: Option<string>,
    description: Option<string>,
    coverImage: Option<string>,
    tags: Option<seq<string>>)

  /** The schema's trim setter on every tag. */
  function TrimTags(tags: seq<string>): (r: seq<string>)
    ensures |r| == |tags| && forall k :: 0 <= k < |tags| ==> r[k] == Trim(tags[k])
  {
    seq(|tags|, k requires 0 <= k < |tags| => Trim(tags[k]))
  }

  /** `new Novel({title, author, description, coverImage, tags})`: absent
      strings stay empty (and fail validation), an absent cover takes the
      schema default, absent tags are an empty list, there are no chapters
      and no slug yet. */
  function NewNovel(author: UserId, f: NovelFields, now: int): (r: Novel)
    ensures r.author == author && r.slug.None? && r.chapters == []
    ensures r.title == Trim(f.title.GetOr("")) && r.description == f.description.GetOr("")
    ensures r.coverImage == (if f.coverImage.Some? then f.coverImage.value else DefaultCoverImage)
    ensures f.tags.Some? ==> r.tags == TrimTags(f.tags.value)
    ensures f.tags.None? ==> r.tags == []
  {
    Novel(Trim(f.title.GetOr("")), None, author, f.description.GetOr(""),
          f.coverImage.GetOr(DefaultCoverImage), TrimTags(f.tags.GetOr([])), [], now, now)
  }

  /** The schema's required fields: a trimmed, non-empty title and a
      non-empty description (the author is always set). */
  predicate Valid(n: Novel) {
    n.title != "" && Trim(n.title) == n.title && n.description != ""
  }

  /** The slugs held by every novel other than `self`: what
      `findOne({slug, _id: {$ne: this._id}})` finds. */
  function TakenSlugs(novels: map<NovelId, Novel>, self: NovelId): set<string> {
    set k | k in novels && k != self && novels[k].slug.Some? :: novels[k].slug.value
  }

  /** The test `this.isModified('title') || !this.slug`. */
  predicate NeedsSlug(n: Novel, titleModified: bool) {
    titleModified || n.slug.None? || n.slug.value == ""
  }

  /** The pre-save hook: always refreshes `updatedAt`; recomputes the slug
      only when the title changed or there is no slug, choosing one that no
      novel in `taken` holds. */
  function PreSave(n: Novel, titleModified: bool, taken: set<string>, now: int): (r: Novel)
    ensures r.updatedAt == now
    ensures r.(updatedAt := n.updatedAt, slug := n.slug) == n
    ensures !NeedsSlug(n, titleModified) ==> r.slug == n.slug
    ensures NeedsSlug(n, titleModified) ==> r.slug == Some(ChooseSlug(GenerateSlug(n.title), taken))
    ensures NeedsSlug(n, titleModified) ==> r.slug.value !in taken
  {
    var slug := if NeedsSlug(n, titleModified) then Some(ChooseSlug(GenerateSlug(n.title), taken)) else n.slug;
    n.(updatedAt := now, slug := slug)
  }

  /** The unique index on `slug` (an absent slug counts as `null`, and two
      nulls collide too). */
  ghost predicate SlugsUnique(novels: map<NovelId, Novel>) {
    forall a, b :: a in novels && b in novels && a != b ==> novels[a].slug != novels[b].slug
  }

  /** Whether a novel other than `id` holds `slug`. */
  predicate SlugHeld(novels: map<NovelId, Novel>, id: NovelId, slug: Option<string>) {
    exists k :: k in novels && k != id && novels[k].slug == slug
  }

  /** `novel.save()` into the collection: validation, then the pre-save hook,
      then the unique slug index. */
  function Save(novels: map<NovelId, Novel>, id: NovelId, n: Novel, titleModified: bool, now: int)
    : (r: Result<map<NovelId, Novel>, SaveFailure>)
    ensures !Valid(n) ==> r == Err(ValidationFailed)
    ensures r.Ok? ==> id in r.value && r.value[id] == PreSave(n, titleModified, TakenSlugs(novels, id), now)
    ensures r.Ok? ==> forall k :: k in r.value ==> k == id || (k in novels && r.value[k] == novels[k])
    ensures r.Ok? ==> r.value.Keys == novels.Keys + {id}
    ensures r.Ok? && SlugsUnique(novels) ==> SlugsUnique(r.value)
    ensures Valid(n) && SlugsUnique(novels) && (NeedsSlug(n, titleModified) || (id in novels && n.slug == novels[id].slug))
            ==> r.Ok?
  {
    if !Valid(n) then Err(ValidationFailed)
    else
      var taken := TakenSlugs(novels, id);
      var saved := PreSave(n, titleModified, taken, now);
      if SlugHeld(novels, id, saved.slug) then Err(DuplicateKey)
      else Ok(novels[id := saved])
  }
}
