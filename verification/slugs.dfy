/** Stable slugs for groups: made from the name, made unique with the id. */
module Slugs {
  import opened Sets

  datatype Group = Group(id: nat, name: string)

  predicate Alnum(c: char) {
    'a' <= c <= 'z' || '0' <= c <= '9'
  }

  // ---------- the pattern that the API accepts: [a-z0-9]+(-[a-z0-9]+)* ----------

  predicate Block(s: string) {
    s != [] && forall i :: 0 <= i < |s| ==> Alnum(s[i])
  }

  function Dashed(blocks: seq<string>): string
    requires blocks != []
  {
    if |blocks| == 1 then blocks[0] else blocks[0] + "-" + Dashed(blocks[1..])
  }

  ghost predicate IsDashed(s: string, blocks: seq<string>) {
    blocks != [] && (forall i :: 0 <= i < |blocks| ==> Block(blocks[i])) && s == Dashed(blocks)
  }

  ghost predicate Matches(s: string) {
    exists blocks :: IsDashed(s, blocks)
  }

  // ---------- making a slug of an ASCII name ----------

  function Lower(s: string): (r: string)
    ensures |r| == |s|
  {
    seq(|s|, i requires 0 <= i < |s| => if 'A' <= s[i] <= 'Z' then ((s[i] as int) + 32) as char else s[i])
  }

  /** Every longest run of other characters becomes one dash. */
  function Sub(s: string): string {
    if s == [] then []
    else if Alnum(s[0]) then [s[0]] + Sub(s[1..])
    else if |s| > 1 && !Alnum(s[1]) then Sub(s[1..])
    else "-" + Sub(s[1..])
  }

  function StripFront(s: string): string {
    if s != [] && s[0] == '-' then StripFront(s[1..]) else s
  }

  function StripBack(s: string): string {
    if s != [] && s[|s| - 1] == '-' then StripBack(s[..|s| - 1]) else s
  }

  function Slugify(s: string): string {
    StripBack(StripFront(Sub(Lower(s))))
  }

  function Digits(n: nat): (r: string)
    ensures Block(r)
  {
    if n < 10 then [('0' as int + n) as char] else Digits(n / 10) + [('0' as int + n % 10) as char]
  }

  function Base(g: Group): string {
    if Slugify(g.name) == [] then "group-" + Digits(g.id) else Slugify(g.name)
  }

  /** The base with the id appended k times. */
  function Candidate(g: Group, k: nat): string {
    if k == 0 then Base(g) else Candidate(g, k - 1) + "-" + Digits(g.id)
  }

  /** The slug is the first candidate that is not taken. */
  ghost predicate FirstFree(g: Group, slug: string, taken: set<string>) {
    slug !in taken && exists k: nat :: IsFirst(g, slug, taken, k)
  }

  ghost predicate IsFirst(g: Group, slug: string, taken: set<string>, k: nat) {
    slug == Candidate(g, k) && forall j: nat :: j < k ==> Candidate(g, j) in taken
  }

  function SetOf(slugs: seq<string>): set<string> {
    set s | s in slugs
  }

  /** The names longer than a candidate that are still in its way. */
  function InTheWay(used: set<string>, slug: string): set<string> {
    set u | u in used && |u| >= |slug|
  }

  lemma LessInTheWay(used: set<string>, slug: string, longer: string)
    requires slug in used && |longer| > |slug|
    ensures |InTheWay(used, longer)| < |InTheWay(used, slug)|
  {
    var a, b := InTheWay(used, longer), InTheWay(used, slug);
    assert slug in b && slug !in a && a <= b - {slug};
    SubsetIsNoLarger(a, b - {slug});
  }

  lemma OneMore(slugs: seq<string>, slug: string)
    ensures SetOf(slugs + [slug]) == SetOf(slugs) + {slug}
    ensures forall i :: 0 <= i <= |slugs| ==> (slugs + [slug])[..i] == slugs[..i]
  {
  }

  /** The loop over the groups, in the order of their ids. */
  method Upgrade(rows: seq<Group>) returns (slugs: seq<string>)
    ensures |slugs| == |rows|
    ensures forall i :: 0 <= i < |rows| ==> FirstFree(rows[i], slugs[i], SetOf(slugs[..i]))
    ensures forall i, j :: 0 <= i < j < |slugs| ==> slugs[i] != slugs[j]
    ensures forall i :: 0 <= i < |slugs| ==> Matches(slugs[i])
  {
    slugs := [];
    var used: set<string> := {};
    for n := 0 to |rows|
      invariant |slugs| == n && used == SetOf(slugs)
      invariant forall i :: 0 <= i < n ==> FirstFree(rows[i], slugs[i], SetOf(slugs[..i]))
      invariant forall i, j :: 0 <= i < j < n ==> slugs[i] != slugs[j]
      invariant forall i :: 0 <= i < n ==> Matches(slugs[i])
    {
      var row := rows[n];
      var slug := FreeSlug(row, used);
      ghost var before := slugs;
      slugs := slugs + [slug];
      used := used + {slug};
      OneMore(before, slug);
    }
  }

  /** One group: the id is appended for as long as the slug is taken. */
  method FreeSlug(row: Group, used: set<string>) returns (slug: string)
    ensures FirstFree(row, slug, used) && Matches(slug)
  {
    var baseSlug := Slugify(row.name);
    if baseSlug == [] { baseSlug := "group-" + Digits(row.id); }
    slug := baseSlug;
    ghost var k: nat := 0;
    if slug in used {
      slug := baseSlug + "-" + Digits(row.id);
      k := 1;
    }
    while slug in used
      invariant IsFirst(row, slug, used, k)
      decreases |InTheWay(used, slug)|
    {
      LessInTheWay(used, slug, slug + "-" + Digits(row.id));
      slug := slug + "-" + Digits(row.id);
      k := k + 1;
    }
    CandidateMatches(row, k);
  }

  // ---------- every candidate matches ----------

  lemma {:induction false} DashedAppend(blocks: seq<string>, b: string)
    requires blocks != []
    ensures Dashed(blocks + [b]) == Dashed(blocks) + "-" + b
  {
    if |blocks| == 1 {
      assert (blocks + [b])[1..] == [b];
    } else {
      assert (blocks + [b])[1..] == blocks[1..] + [b];
      DashedAppend(blocks[1..], b);
    }
  }

  lemma MatchesAppend(s: string, b: string)
    requires Matches(s) && Block(b)
    ensures Matches(s + "-" + b)
  {
    var blocks :| IsDashed(s, blocks);
    DashedAppend(blocks, b);
    assert IsDashed(s + "-" + b, blocks + [b]);
  }

  lemma MatchesBlock(b: string)
    requires Block(b)
    ensures Matches(b)
  {
    assert IsDashed(b, [b]);
  }

  /** Letters, digits and single dashes. */
  predicate Clean(s: string) {
    && (forall i :: 0 <= i < |s| ==> Alnum(s[i]) || s[i] == '-')
    && (forall i :: 0 <= i < |s| - 1 ==> !(s[i] == '-' && s[i + 1] == '-'))
  }

  predicate Trimmed(s: string) {
    Clean(s) && s != [] && s[0] != '-' && s[|s| - 1] != '-'
  }

  /** The simple description agrees with the pattern. */
  lemma {:induction false} TrimmedMatches(s: string)
    requires Trimmed(s)
    ensures Matches(s)
    decreases |s|
  {
    var n := BlockEnd(s);
    if n == |s| {
      MatchesBlock(s);
    } else {
      var rest := s[n + 1..];
      assert s[n] == '-' && rest[0] == s[n + 1];
      TrimmedMatches(rest);
      var blocks :| IsDashed(rest, blocks);
      assert ([s[..n]] + blocks)[1..] == blocks;
      assert s == s[..n] + "-" + rest;
      assert IsDashed(s, [s[..n]] + blocks);
    }
  }

  function BlockEnd(s: string): (n: nat)
    ensures n <= |s| && (forall i :: 0 <= i < n ==> Alnum(s[i])) && (n < |s| ==> !Alnum(s[n]))
  {
    if s == [] || !Alnum(s[0]) then 0
    else
      var n := BlockEnd(s[1..]);
      assert forall i :: 0 <= i < n ==> s[1..][i] == s[i + 1];
      n + 1
  }

  lemma {:induction false} SubIsClean(s: string)
    ensures Clean(Sub(s))
    ensures Sub(s) != [] && Sub(s)[0] == '-' ==> !Alnum(s[0])
  {
    if s != [] { SubIsClean(s[1..]); }
  }

  lemma {:induction false} StripFrontKeeps(s: string)
    requires Clean(s)
    ensures Clean(StripFront(s)) && (StripFront(s) != [] ==> StripFront(s)[0] != '-')
  {
    if s != [] && s[0] == '-' { StripFrontKeeps(s[1..]); }
  }

  lemma {:induction false} StripBackKeeps(s: string)
    requires Clean(s) && (s != [] ==> s[0] != '-')
    ensures Clean(StripBack(s)) && (StripBack(s) != [] ==> Trimmed(StripBack(s)))
    decreases |s|
  {
    if s != [] && s[|s| - 1] == '-' { StripBackKeeps(s[..|s| - 1]); }
  }

  /** A slug of a name matches the pattern, unless nothing of the name is left. */
  lemma SlugifyMatches(name: string)
    ensures Slugify(name) != [] ==> Matches(Slugify(name))
  {
    SubIsClean(Lower(name));
    StripFrontKeeps(Sub(Lower(name)));
    StripBackKeeps(StripFront(Sub(Lower(name))));
    if Slugify(name) != [] { TrimmedMatches(Slugify(name)); }
  }

  lemma {:induction false} CandidateMatches(g: Group, k: nat)
    ensures Matches(Candidate(g, k))
  {
    if k > 0 {
      CandidateMatches(g, k - 1);
      MatchesAppend(Candidate(g, k - 1), Digits(g.id));
    } else {
      SlugifyMatches(g.name);
      MatchesBlock("group");
      MatchesAppend("group", Digits(g.id));
      assert "group" + "-" + Digits(g.id) == "group-" + Digits(g.id);
    }
  }

  // ---------- names that are slugs already ----------

  lemma {:induction false} SubOfClean(s: string)
    requires Clean(s)
    ensures Sub(s) == s
  {
    if s != [] {
      assert s == [s[0]] + s[1..];
      SubOfClean(s[1..]);
    }
  }

  lemma LowerOfClean(s: string)
    requires Clean(s)
    ensures Lower(s) == s
  {
  }

  lemma SlugOfSlug(s: string)
    requires Trimmed(s)
    ensures Slugify(s) == s
  {
    LowerOfClean(s);
    SubOfClean(s);
    assert StripFront(s) == s && StripBack(s) == s;
  }

  /** Slugify leaves a slug as it is, so making slugs twice is making them once. */
  lemma SlugifyTwice(name: string)
    ensures Slugify(Slugify(name)) == Slugify(name)
  {
    SubIsClean(Lower(name));
    StripFrontKeeps(Sub(Lower(name)));
    StripBackKeeps(StripFront(Sub(Lower(name))));
    if Slugify(name) != [] { SlugOfSlug(Slugify(name)); }
  }

  // ---------- the pattern once more ----------

  lemma {:induction false} DashedTrimmed(blocks: seq<string>)
    requires blocks != [] && forall i :: 0 <= i < |blocks| ==> Block(blocks[i])
    ensures Trimmed(Dashed(blocks))
    decreases |blocks|
  {
    if |blocks| > 1 {
      DashedTrimmed(blocks[1..]);
      var b, rest := blocks[0], Dashed(blocks[1..]);
      assert Alnum(b[0]) && Alnum(b[|b| - 1]) && rest[0] != '-';
    } else {
      assert Alnum(blocks[0][0]) && Alnum(blocks[0][|blocks[0]| - 1]);
    }
  }

  /** Exactly the strings of small letters, digits and single inner dashes match the pattern. */
  lemma MatchesIff(s: string)
    ensures Matches(s) <==> Trimmed(s)
  {
    if Matches(s) {
      var blocks :| IsDashed(s, blocks);
      DashedTrimmed(blocks);
    }
    if Trimmed(s) { TrimmedMatches(s); }
  }

  // ---------- what a slug says ----------

  const SMALL_LETTERS := "abcdefghijklmnopqrstuvwxyz"
  const CAPITAL_LETTERS := "ABCDEFGHIJKLMNOPQRSTUVWXYZ"
  const DECIMAL_DIGITS := "0123456789"

  lemma AlphabetAt(k: nat)
    requires k < 26
    ensures SMALL_LETTERS[k] as int == 97 + k && CAPITAL_LETTERS[k] as int == 65 + k
  {
  }

  /** Capital letters become the small ones, and nothing else changes. */
  lemma LowerIs(s: string, i: nat)
    requires i < |s|
    ensures forall k :: 0 <= k < 26 && s[i] == CAPITAL_LETTERS[k] ==> Lower(s)[i] == SMALL_LETTERS[k]
    ensures s[i] !in CAPITAL_LETTERS ==> Lower(s)[i] == s[i]
  {
    forall k | 0 <= k < 26 ensures SMALL_LETTERS[k] as int == 97 + k && CAPITAL_LETTERS[k] as int == 65 + k {
      AlphabetAt(k);
    }
    if 'A' <= s[i] <= 'Z' { assert CAPITAL_LETTERS[s[i] as int - 65] == s[i]; }
  }

  /** The letters and digits of the pattern. */
  lemma AlnumIff(c: char)
    ensures Alnum(c) <==> c in SMALL_LETTERS || c in DECIMAL_DIGITS
  {
    forall k | 0 <= k < 26 ensures SMALL_LETTERS[k] as int == 97 + k { AlphabetAt(k); }
    if 'a' <= c <= 'z' { assert SMALL_LETTERS[c as int - 97] == c; }
    if '0' <= c <= '9' { assert DECIMAL_DIGITS[c as int - 48] == c; }
  }

  /** The longest runs of letters and digits, in order. */
  function Words(t: string): seq<string>
    decreases |t|
  {
    if t == [] then []
    else if !Alnum(t[0]) then Words(t[1..])
    else [t[..BlockEnd(t)]] + Words(t[BlockEnd(t)..])
  }

  function Joined(words: seq<string>): string {
    if words == [] then "" else Dashed(words)
  }

  lemma {:induction false} WordsAreBlocks(t: string)
    ensures forall i :: 0 <= i < |Words(t)| ==> Block(Words(t)[i])
    ensures t != [] && (Words(t) == [] || !Alnum(t[0])) ==> !Alnum(t[0])
    ensures Words(t) == [] ==> forall i :: 0 <= i < |t| ==> !Alnum(t[i])
    decreases |t|
  {
    if t != [] {
      if !Alnum(t[0]) { WordsAreBlocks(t[1..]); }
      else {
        var n := BlockEnd(t);
        WordsAreBlocks(t[n..]);
        assert Block(t[..n]);
      }
    }
  }

  lemma {:induction false} SubOfBlock(t: string, n: nat)
    requires n <= |t| && (forall i :: 0 <= i < n ==> Alnum(t[i])) && (n < |t| ==> !Alnum(t[n]))
    ensures Sub(t) == t[..n] + Sub(t[n..])
    decreases n
  {
    if n == 0 {
      assert t[0..] == t;
    } else {
      SubOfBlock(t[1..], n - 1);
      assert t[1..][..n - 1] == t[1..n] && t[1..][n - 1..] == t[n..];
      assert t[..n] == [t[0]] + t[1..n];
    }
  }

  /** What is left of the characters before the first word, or after the last one. */
  function Edge(c: char): string {
    if Alnum(c) then "" else "-"
  }

  /** The substitution keeps the words and puts one dash between them, and one at an end that is not a word. */
  lemma {:induction false} SubIs(t: string)
    requires t != []
    ensures Sub(t) == if Words(t) == [] then "-" else Edge(t[0]) + Dashed(Words(t)) + Edge(t[|t| - 1])
    decreases |t|, 1
  {
    if Alnum(t[0]) {
      SubFromWord(t);
      assert "" + Dashed(Words(t)) == Dashed(Words(t));
    } else if |t| > 1 {
      var rest := t[1..];
      SubIs(rest);
      SubFromGap(t, rest);
    } else {
      assert t[1..] == "" && Words(t[1..]) == [];
    }
  }

  lemma {:induction false} SubFromGap(t: string, rest: string)
    requires rest != [] && |t| == |rest| + 1 && t[1..] == rest && !Alnum(t[0])
    ensures Words(t) == Words(rest) && t[|t| - 1] == rest[|rest| - 1]
    ensures Alnum(rest[0]) ==> Words(rest) != [] && Sub(t) == "-" + Sub(rest)
    ensures !Alnum(rest[0]) ==> Sub(t) == Sub(rest)
  {
    assert t[1] == rest[0];
  }

  lemma {:induction false} SubFromWord(t: string)
    requires t != [] && Alnum(t[0])
    ensures Words(t) != [] && Sub(t) == Dashed(Words(t)) + Edge(t[|t| - 1])
    decreases |t|, 0
  {
    var n := BlockEnd(t);
    var b, rest := t[..n], t[n..];
    SubOfBlock(t, n);
    if rest == [] {
      assert t == b && Words(t) == [b];
    } else {
      SubIs(rest);
      WordsAreBlocks(rest);
      assert Words(t) == [b] + Words(rest) && t[|t| - 1] == rest[|rest| - 1];
      WordBefore(b, Words(rest), Edge(t[|t| - 1]));
    }
  }

  lemma {:induction false} WordBefore(b: string, words: seq<string>, edge: string)
    ensures words == [] ==> Dashed([b] + words) == b
    ensures words != [] ==> b + ("-" + Dashed(words) + edge) == Dashed([b] + words) + edge
  {
    if words == [] { assert [b] + words == [b]; } else { assert ([b] + words)[1..] == words; }
  }

  lemma {:induction false} StripsFront(s: string)
    requires s != [] && s[0] != '-'
    ensures StripFront(s) == s && StripFront("-" + s) == s
  {
    assert ("-" + s)[1..] == s;
  }

  lemma {:induction false} StripsBack(s: string)
    requires s != [] && s[|s| - 1] != '-'
    ensures StripBack(s) == s && StripBack(s + "-") == s
  {
    assert (s + "-")[..|s|] == s;
  }

  lemma {:induction false} Stripped(s: string, front: string, back: string)
    requires s != [] && s[0] != '-' && s[|s| - 1] != '-'
    requires (front == "" || front == "-") && (back == "" || back == "-")
    ensures StripBack(StripFront(front + s + back)) == s
  {
    assert front + s + back == front + (s + back) && "" + (s + back) == s + back && s + "" == s;
    StripsFront(s + back);
    StripsBack(s);
  }

  /** A slug is the words of the name in small letters, in their order, with one dash between them. */
  lemma SlugIsWords(name: string)
    ensures Slugify(name) == Joined(Words(Lower(name)))
  {
    var t := Lower(name);
    if t != [] {
      SubIs(t);
      WordsAreBlocks(t);
      if Words(t) != [] {
        DashedTrimmed(Words(t));
        Stripped(Dashed(Words(t)), Edge(t[0]), Edge(t[|t| - 1]));
      } else {
        assert "-"[1..] == "";
      }
    }
  }

  // ---------- the number at the end ----------

  /** The value of a decimal numeral. */
  function ValueOf(s: string): int {
    if s == [] then 0 else 10 * ValueOf(s[..|s| - 1]) + (s[|s| - 1] as int - '0' as int)
  }

  /** Digits is the decimal numeral without leading zeros. */
  lemma {:induction false} DigitsRead(n: nat)
    ensures ValueOf(Digits(n)) == n && (n > 0 ==> Digits(n)[0] != '0') && (n == 0 ==> Digits(n) == "0")
    ensures forall i :: 0 <= i < |Digits(n)| ==> Digits(n)[i] in DECIMAL_DIGITS
  {
    var last := ('0' as int + n % 10) as char;
    assert DECIMAL_DIGITS[n % 10] == last;
    if n >= 10 {
      DigitsRead(n / 10);
      assert Digits(n)[..|Digits(n)| - 1] == Digits(n / 10);
    } else {
      assert Digits(n)[..0] == "";
    }
  }

  function Repeated(part: string, k: nat): string {
    if k == 0 then "" else Repeated(part, k - 1) + part
  }

  lemma {:induction false} CandidateIs(g: Group, k: nat)
    ensures Candidate(g, k) ==
            (if Words(Lower(g.name)) != [] then Dashed(Words(Lower(g.name))) else "group-" + Digits(g.id))
              + Repeated("-" + Digits(g.id), k)
  {
    SlugIsWords(g.name);
    WordsAreBlocks(Lower(g.name));
    if k == 0 {
      if Words(Lower(g.name)) != [] { DashedTrimmed(Words(Lower(g.name))); }
      assert Candidate(g, 0) + "" == Candidate(g, 0);
    } else {
      CandidateIs(g, k - 1);
    }
  }

  /**
   * The slug of a group: the words of its name, or the word group and its id for a name without words, with
   * the id appended as often as it takes to be different from the slugs before it, and no more often.
   */
  lemma SlugOfGroupIs(g: Group, slug: string, taken: set<string>)
    requires FirstFree(g, slug, taken)
    ensures var plain := if Words(Lower(g.name)) != [] then Dashed(Words(Lower(g.name))) else "group-" + Digits(g.id);
      exists k: nat :: slug == plain + Repeated("-" + Digits(g.id), k)
        && forall j: nat :: j < k ==> plain + Repeated("-" + Digits(g.id), j) in taken
  {
    var k: nat :| IsFirst(g, slug, taken, k);
    CandidateIs(g, k);
    forall j: nat | j < k ensures Candidate(g, j) in taken { CandidateIs(g, j); }
    forall j: nat { CandidateIs(g, j); }
  }
}
