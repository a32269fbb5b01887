/**
  The ranking engine of `calculate-rarity.py`: once the collection's metadata is
  loaded, the script counts how often every (trait type, value) pair occurs,
  scores each trait as `total_items / frequency`, sums the scores per item and
  picks each item's rarest trait, sorts the items by total score, numbers them
  (items carrying a "Featured Artist" trait are pinned to rank 1), formats the
  rank and the item name for the rankings file, and writes the rank back into
  each item's attributes as its "Rarity".

  Scores are exact rationals (`real`) where the script uses floats.
*/
module Rarity {
  import opened Wrappers
  import opened PyStr
  import opened StableSort

  // ---------------------------------------------------------------------------
  // Data model

  /** An attribute value, as far as the script tells values apart. */
  datatype Value = Missing | Text(text: string) | Number(n: int)

  /** Python truthiness of a value: `None`, `""` and `0` are false. */
  predicate Truthy(v: Value) {
    match v
    case Missing => false
    case Text(t) => t != ""
    case Number(n) => n != 0
  }

  /**
    One entry of an item's `item_attributes`. A missing `trait_type` is
    represented by "", which every use in the script treats alike.
  */
  datatype Attr = Attr(traitType: string, value: Value)

  /**
    One collection item. `key` is the item's `ethscription_id`, else its `id`,
    and `None` when it has neither.
  */
  datatype Item = Item(name: string, key: Option<string>, attrs: seq<Attr>)

  /** Trait types left out of every rarity calculation. */
  const ExcludedTraits: set<string> := {"Wisdom/Magic", "Power/Strength", "Speed/Agility"}

  const FeaturedArtist: string := "Featured Artist"

  /** The placeholder score of a featured item that has no scored trait. */
  const FeaturedScore: real := 999999.0

  const NoItemsMessage: string := "No items found in metadata."

  const LinkPrefix: string := "https://ethscriptions.com/ethscriptions/"

  predicate IsRankTrait(t: string) {
    LowerIs(t, "rank")
  }

  predicate IsRarityTrait(t: string) {
    LowerIs(t, "rarity")
  }

  /** Trait types that never take part in scoring: the excluded ones, rank/rarity, Featured Artist. */
  predicate ScoreExcluded(t: string) {
    t in ExcludedTraits || IsRarityTrait(t) || IsRankTrait(t) || t == FeaturedArtist
  }

  /** The filter of the counting loop: a truthy type and value, and a type that is scored. */
  predicate Counted(a: Attr) {
    a.traitType != "" && Truthy(a.value) && !ScoreExcluded(a.traitType)
  }

  /**
    What the scoring loop needs to run without crashing: every attribute it
    scores has a trait type (else `.lower()` fails on `None`) and was counted
    (else the score divides by a zero frequency).
  */
  predicate WellFormed(items: seq<Item>) {
    forall i, j :: 0 <= i < |items| && 0 <= j < |items[i].attrs| ==>
      ScoreExcluded(items[i].attrs[j].traitType) || Counted(items[i].attrs[j])
  }

  // ---------------------------------------------------------------------------
  // Trait counting

  /** The number of counted attributes in `attrs` equal to `a`. */
  function Occurrences(attrs: seq<Attr>, a: Attr): nat {
    if attrs == [] then 0
    else
      var last := attrs[|attrs| - 1];
      Occurrences(attrs[..|attrs| - 1], a) + (if Counted(last) && last == a then 1 else 0)
  }

  /** The number of counted attributes, across all items, equal to `a`. */
  function Frequency(items: seq<Item>, a: Attr): nat {
    if items == [] then 0
    else Frequency(items[..|items| - 1], a) + Occurrences(items[|items| - 1].attrs, a)
  }

  /**
    The counting loop: builds the table of trait frequencies. Exactly the
    counted pairs are keys, and each maps to its number of occurrences.
  */
  method CountTraits(items: seq<Item>) returns (counts: map<Attr, nat>)
    ensures forall a :: a in counts <==> Frequency(items, a) > 0
    ensures forall a :: a in counts ==> counts[a] == Frequency(items, a)
  {
    counts := map[];
    var i := 0;
    while i < |items|
      invariant 0 <= i <= |items|
      invariant forall a :: a in counts <==> Frequency(items[..i], a) > 0
      invariant forall a :: a in counts ==> counts[a] == Frequency(items[..i], a)
    {
      var attrs := items[i].attrs;
      var j := 0;
      while j < |attrs|
        invariant 0 <= j <= |attrs|
        invariant forall a :: a in counts <==> Frequency(items[..i], a) + Occurrences(attrs[..j], a) > 0
        invariant forall a :: a in counts ==> counts[a] == Frequency(items[..i], a) + Occurrences(attrs[..j], a)
      {
        var attr := attrs[j];
        assert attrs[..j + 1][..j] == attrs[..j];
        if Counted(attr) {
          counts := counts[attr := (if attr in counts then counts[attr] else 0) + 1];
        }
        j := j + 1;
      }
      assert attrs[..j] == attrs;
      assert items[..i + 1][..i] == items[..i];
      i := i + 1;
    }
    assert items[..i] == items;
  }

  /** Only counted attributes have a frequency. */
  lemma {:induction false} OccurrencesCounted(attrs: seq<Attr>, a: Attr)
    requires Occurrences(attrs, a) > 0
    ensures Counted(a)
  {
    if attrs != [] {
      var last := attrs[|attrs| - 1];
      if !(Counted(last) && last == a) {
        OccurrencesCounted(attrs[..|attrs| - 1], a);
      }
    }
  }

  /** Every pair in the frequency table passes the counting filter. */
  lemma {:induction false} FrequencyCounted(items: seq<Item>, a: Attr)
    requires Frequency(items, a) > 0
    ensures Counted(a)
  {
    if items != [] {
      if Occurrences(items[|items| - 1].attrs, a) > 0 {
        OccurrencesCounted(items[|items| - 1].attrs, a);
      } else {
        FrequencyCounted(items[..|items| - 1], a);
      }
    }
  }

  /** A counted attribute of a list contributes to its own occurrence count. */
  lemma {:induction false} OccurrencesOfMember(attrs: seq<Attr>, j: nat)
    requires j < |attrs| && Counted(attrs[j])
    ensures Occurrences(attrs, attrs[j]) >= 1
  {
    if j < |attrs| - 1 {
      var init := attrs[..|attrs| - 1];
      assert init[j] == attrs[j];
      OccurrencesOfMember(init, j);
    }
  }

  /** A counted attribute of an item has a positive frequency. */
  lemma {:induction false} FrequencyOfMember(items: seq<Item>, i: nat, j: nat)
    requires i < |items| && j < |items[i].attrs| && Counted(items[i].attrs[j])
    ensures Frequency(items, items[i].attrs[j]) >= 1
  {
    if i == |items| - 1 {
      OccurrencesOfMember(items[i].attrs, j);
    } else {
      var init := items[..|items| - 1];
      assert init[i] == items[i];
      FrequencyOfMember(init, i, j);
    }
  }

  // ---------------------------------------------------------------------------
  // Scores

  /** The rarity score of a trait, `total_items / frequency`: positive, and times the frequency it is the collection size. */
  function TraitScore(items: seq<Item>, a: Attr): (score: real)
    requires Frequency(items, a) > 0
    ensures score > 0.0
    ensures score * Frequency(items, a) as real == |items| as real
  {
    FrequencyPositiveSize(items, a);
    QuotientTimesDivisor(|items| as real, Frequency(items, a) as real);
    |items| as real / Frequency(items, a) as real
  }

  lemma QuotientTimesDivisor(n: real, d: real)
    requires 0.0 < n && 0.0 < d
    ensures (n / d) * d == n && n / d > 0.0
  {
  }

  /** A pair that occurs somewhere means the collection is not empty. */
  lemma FrequencyPositiveSize(items: seq<Item>, a: Attr)
    requires Frequency(items, a) > 0
    ensures |items| > 0
  {
  }

  /** Dividing a positive number by a larger divisor gives a smaller quotient. */
  lemma DivideByLarger(n: real, a: real, b: real)
    requires 0.0 < n && 0.0 < a < b
    ensures n / a > n / b
  {
    var x, y := n / a, n / b;
    assert x * a == n && y * b == n;
    assert x > 0.0;
    assert x * b > x * a;
  }

  /** The rarer of two traits has the higher score. */
  lemma TraitScoreRarer(items: seq<Item>, a: Attr, b: Attr)
    requires 0 < Frequency(items, a) < Frequency(items, b)
    ensures TraitScore(items, a) > TraitScore(items, b)
  {
    FrequencyPositiveSize(items, a);
    DivideByLarger(|items| as real, Frequency(items, a) as real, Frequency(items, b) as real);
  }

  /** A scored trait of an item: its type, value and score. */
  datatype ScoredTrait = ScoredTrait(traitType: string, value: Value, score: real)

  /** The attributes of `attrs` that the scoring loop scores, all with a positive frequency. */
  ghost predicate Scorable(items: seq<Item>, attrs: seq<Attr>) {
    forall j :: 0 <= j < |attrs| && !ScoreExcluded(attrs[j].traitType) ==> Frequency(items, attrs[j]) > 0
  }

  /** A well-formed collection can score every one of its items. */
  lemma WellFormedScorable(items: seq<Item>)
    requires WellFormed(items)
    ensures forall i :: 0 <= i < |items| ==> Scorable(items, items[i].attrs)
  {
    forall i, j | 0 <= i < |items| && 0 <= j < |items[i].attrs| && !ScoreExcluded(items[i].attrs[j].traitType)
      ensures Frequency(items, items[i].attrs[j]) > 0
    {
      FrequencyOfMember(items, i, j);
    }
  }

  /** The attributes the scoring loop does not skip, in attribute order. */
  function Kept(attrs: seq<Attr>): (ks: seq<Attr>)
    ensures |ks| <= |attrs|
    ensures forall k :: 0 <= k < |ks| ==> !ScoreExcluded(ks[k].traitType)
  {
    if attrs == [] then []
    else if ScoreExcluded(attrs[0].traitType) then Kept(attrs[1..])
    else [attrs[0]] + Kept(attrs[1..])
  }

  /** Filtering distributes over concatenation, so `Kept` keeps the attribute order. */
  lemma {:induction false} KeptAppend(a: seq<Attr>, b: seq<Attr>)
    ensures Kept(a + b) == Kept(a) + Kept(b)
  {
    if a == [] {
      assert a + b == b;
    } else {
      assert (a + b)[0] == a[0];
      assert (a + b)[1..] == a[1..] + b;
      KeptAppend(a[1..], b);
    }
  }

  /** An attribute is kept exactly when it is one of the item's and its trait type is not excluded. */
  lemma {:induction false} KeptMembers(attrs: seq<Attr>, x: Attr)
    ensures x in Kept(attrs) <==> x in attrs && !ScoreExcluded(x.traitType)
  {
    if attrs != [] {
      KeptMembers(attrs[1..], x);
      assert attrs == [attrs[0]] + attrs[1..];
    }
  }

  /** The scores of the scored attributes of one item, in attribute order. */
  function ScoredTraits(items: seq<Item>, attrs: seq<Attr>): (ts: seq<ScoredTrait>)
    requires Scorable(items, attrs)
    ensures |ts| == |Kept(attrs)|
    ensures forall k :: 0 <= k < |ts| ==>
      var b := Kept(attrs)[k];
      && Frequency(items, b) > 0
      && ts[k] == ScoredTrait(b.traitType, b.value, TraitScore(items, b))
    ensures forall k :: 0 <= k < |ts| ==> ts[k].score > 0.0
  {
    if attrs == [] then []
    else
      var a := attrs[0];
      var rest := ScoredTraits(items, attrs[1..]);
      if ScoreExcluded(a.traitType) then rest
      else
        [ScoredTrait(a.traitType, a.value, TraitScore(items, a))] + rest
  }

  /** An item has a scored trait exactly when one of its attributes is not excluded. */
  lemma {:induction false} ScoredTraitsEmpty(items: seq<Item>, attrs: seq<Attr>)
    requires Scorable(items, attrs)
    ensures ScoredTraits(items, attrs) == [] <==> forall j :: 0 <= j < |attrs| ==> ScoreExcluded(attrs[j].traitType)
  {
    if attrs != [] {
      ScoredTraitsEmpty(items, attrs[1..]);
      assert forall j :: 1 <= j < |attrs| ==> attrs[j] == attrs[1..][j - 1];
    }
  }

  /** The sum of the scores. */
  function SumScores(ts: seq<ScoredTrait>): real {
    if ts == [] then 0.0 else ts[0].score + SumScores(ts[1..])
  }

  /** A sum of positive scores is at least each of them. */
  lemma {:induction false} SumScoresBound(ts: seq<ScoredTrait>, k: nat)
    requires k < |ts|
    requires forall j :: 0 <= j < |ts| ==> ts[j].score > 0.0
    ensures ts[k].score <= SumScores(ts)
  {
    SumScoresNonNegative(ts[1..]);
    if k > 0 {
      SumScoresBound(ts[1..], k - 1);
    }
  }

  lemma {:induction false} SumScoresNonNegative(ts: seq<ScoredTrait>)
    requires forall j :: 0 <= j < |ts| ==> ts[j].score > 0.0
    ensures SumScores(ts) >= 0.0
  {
    if ts != [] {
      SumScoresNonNegative(ts[1..]);
    }
  }

  /**
    The index Python's `max(ts, key=score)` picks: a maximal score, and the
    first such one, since `max` replaces its candidate only on a strictly
    greater key.
  */
  function RarestIndex(ts: seq<ScoredTrait>): (r: nat)
    requires |ts| > 0
    ensures r < |ts|
    ensures forall j :: 0 <= j < |ts| ==> ts[j].score <= ts[r].score
    ensures forall j :: 0 <= j < r ==> ts[j].score < ts[r].score
  {
    if |ts| == 1 then 0
    else
      var k := RarestIndex(ts[..|ts| - 1]);
      if ts[|ts| - 1].score > ts[k].score then |ts| - 1 else k
  }

  /** The first attribute of `attrs` whose type is `t`, or `|attrs|` when there is none. */
  function FirstOfType(attrs: seq<Attr>, t: string): (r: nat)
    ensures r <= |attrs|
    ensures r < |attrs| ==> attrs[r].traitType == t
    ensures forall j :: 0 <= j < r ==> attrs[j].traitType != t
  {
    if attrs == [] then 0
    else if attrs[0].traitType == t then 0
    else 1 + FirstOfType(attrs[1..], t)
  }

  /** `is_featured_artist`: the item carries a "Featured Artist" trait. */
  predicate IsFeatured(x: Item) {
    FirstOfType(x.attrs, FeaturedArtist) < |x.attrs|
  }

  /** An item is featured exactly when one of its attributes has the Featured Artist type. */
  lemma IsFeaturedMeaning(x: Item)
    ensures IsFeatured(x) <==> exists j :: 0 <= j < |x.attrs| && x.attrs[j].traitType == FeaturedArtist
  {
  }

  // ---------------------------------------------------------------------------
  // Ranking entries

  /** A line of `nft_rankings`: name, total score, rarest trait, and the item itself. */
  datatype Entry = Entry(name: string, total: real, rarest: ScoredTrait, item: Item)

  function TotalOf(e: Entry): real {
    e.total
  }

  predicate NotFeatured(e: Entry) {
    !IsFeatured(e.item)
  }

  predicate NotFeaturedItem(x: Item) {
    !IsFeatured(x)
  }

  /**
    The entry the scoring loop appends for item `x`, if any. An item with a
    scored trait enters with its total and its rarest trait. An item without
    one enters only if it is featured, with the placeholder score and its
    first Featured Artist trait as "rarest". Any other item is left out.
  */
  function RankingEntry(items: seq<Item>, x: Item): (r: Option<Entry>)
    requires Scorable(items, x.attrs)
    ensures r.Some? <==> ScoredTraits(items, x.attrs) != [] || IsFeatured(x)
    ensures r.Some? ==> r.value.item == x && r.value.name == x.name
    ensures r.Some? && ScoredTraits(items, x.attrs) != [] ==>
      var ts := ScoredTraits(items, x.attrs);
      && r.value.total == SumScores(ts)
      && r.value.rarest == ts[RarestIndex(ts)]
      && (forall k :: 0 <= k < |ts| ==> ts[k].score <= r.value.rarest.score)
      && 0.0 < r.value.rarest.score <= r.value.total
    ensures r.Some? && ScoredTraits(items, x.attrs) == [] ==>
      && r.value.total == FeaturedScore
      && r.value.rarest == ScoredTrait(FeaturedArtist, x.attrs[FirstOfType(x.attrs, FeaturedArtist)].value, FeaturedScore)
  {
    var ts := ScoredTraits(items, x.attrs);
    if ts != [] then
      var k := RarestIndex(ts);
      SumScoresBound(ts, k);
      Some(Entry(x.name, SumScores(ts), ts[k], x))
    else if IsFeatured(x) then
      var f := x.attrs[FirstOfType(x.attrs, FeaturedArtist)];
      Some(Entry(x.name, FeaturedScore, ScoredTrait(FeaturedArtist, f.value, FeaturedScore), x))
    else None
  }

  /** The entries of `xs`, in order: the list the scoring loop builds. */
  function Collect(items: seq<Item>, xs: seq<Item>): (es: seq<Entry>)
    requires forall k :: 0 <= k < |xs| ==> Scorable(items, xs[k].attrs)
    ensures |es| <= |xs|
    ensures forall e :: e in es ==>
      e.item in xs && Scorable(items, e.item.attrs) && RankingEntry(items, e.item) == Some(e)
  {
    if xs == [] then []
    else
      var rest := Collect(items, xs[1..]);
      match RankingEntry(items, xs[0])
      case Some(e) => [e] + rest
      case None => rest
  }

  /** The entries of one item: its ranking entry, if it has one. */
  lemma CollectOne(items: seq<Item>, x: Item)
    requires Scorable(items, x.attrs)
    ensures Collect(items, [x]) == if RankingEntry(items, x).Some? then [RankingEntry(items, x).value] else []
  {
    assert [x][1..] == [];
  }

  /** One step of the scoring loop: the first item's entry, if any, then the rest's. */
  lemma CollectStep(items: seq<Item>, xs: seq<Item>)
    requires xs != [] && forall k :: 0 <= k < |xs| ==> Scorable(items, xs[k].attrs)
    ensures Collect(items, xs) == Collect(items, [xs[0]]) + Collect(items, xs[1..])
  {
    CollectOne(items, xs[0]);
  }

  /** Collecting distributes over concatenation, so entries come in item order. */
  lemma {:induction false} CollectAppend(items: seq<Item>, a: seq<Item>, b: seq<Item>)
    requires forall k :: 0 <= k < |a| ==> Scorable(items, a[k].attrs)
    requires forall k :: 0 <= k < |b| ==> Scorable(items, b[k].attrs)
    ensures Collect(items, a + b) == Collect(items, a) + Collect(items, b)
  {
    if a == [] {
      assert a + b == b;
    } else {
      assert (a + b)[0] == a[0];
      assert (a + b)[1..] == a[1..] + b;
      CollectAppend(items, a[1..], b);
      CollectStep(items, a + b);
      CollectStep(items, a);
    }
  }

  /** The item at `i`, if it has a ranking entry, contributes it. */
  lemma {:induction false} CollectContains(items: seq<Item>, xs: seq<Item>, i: nat)
    requires forall k :: 0 <= k < |xs| ==> Scorable(items, xs[k].attrs)
    requires i < |xs| && RankingEntry(items, xs[i]).Some?
    ensures RankingEntry(items, xs[i]).value in Collect(items, xs)
  {
    CollectStep(items, xs);
    if i > 0 {
      assert xs[i] == xs[1..][i - 1];
      CollectContains(items, xs[1..], i - 1);
    } else {
      CollectOne(items, xs[0]);
    }
  }

  /** Every item with a ranking entry contributes it. */
  lemma CollectComplete(items: seq<Item>, xs: seq<Item>)
    requires forall k :: 0 <= k < |xs| ==> Scorable(items, xs[k].attrs)
    ensures forall i :: 0 <= i < |xs| && RankingEntry(items, xs[i]).Some? ==>
      RankingEntry(items, xs[i]).value in Collect(items, xs)
  {
    forall i | 0 <= i < |xs| && RankingEntry(items, xs[i]).Some?
      ensures RankingEntry(items, xs[i]).value in Collect(items, xs)
    {
      CollectContains(items, xs, i);
    }
  }

  /** Items and entries match one to one, so there are no more non-featured entries than non-featured items. */
  lemma {:induction false} CollectNotFeatured(items: seq<Item>, xs: seq<Item>)
    requires forall k :: 0 <= k < |xs| ==> Scorable(items, xs[k].attrs)
    ensures CountWhere(NotFeatured, Collect(items, xs)) <= CountWhere(NotFeaturedItem, xs)
  {
    if xs != [] {
      CollectNotFeatured(items, xs[1..]);
      var rest := Collect(items, xs[1..]);
      match RankingEntry(items, xs[0])
      case Some(e) =>
        CountWhereConcat(NotFeatured, [e], rest);
      case None =>
    }
  }

  /** `nft_rankings` before the sort: one entry per ranked item, in item order. */
  function Entries(items: seq<Item>): (es: seq<Entry>)
    requires WellFormed(items)
    ensures |es| <= |items|
    ensures forall e :: e in es ==>
      e.item in items && Scorable(items, e.item.attrs) && RankingEntry(items, e.item) == Some(e)
    ensures forall i :: 0 <= i < |items| ==>
      Scorable(items, items[i].attrs) && (RankingEntry(items, items[i]).Some? ==> RankingEntry(items, items[i]).value in es)
  {
    WellFormedScorable(items);
    CollectComplete(items, items);
    Collect(items, items)
  }

  /** `nft_rankings` after the sort: entries by non-increasing total score. */
  function Rankings(items: seq<Item>): (es: seq<Entry>)
    requires WellFormed(items)
    ensures SortedDesc(TotalOf, es)
  {
    SortDesc(TotalOf, Entries(items))
  }

  /**
    The sort is stable and loses nothing: it is a permutation of the entries in
    item order, and entries with equal totals keep their item order.
  */
  lemma RankingsPermutationStable(items: seq<Item>, score: real)
    requires WellFormed(items)
    ensures multiset(Rankings(items)) == multiset(Entries(items))
    ensures WithKey(TotalOf, score, Rankings(items)) == WithKey(TotalOf, score, Entries(items))
  {
    SortDescStable(TotalOf, score, Entries(items));
  }

  // ---------------------------------------------------------------------------
  // Item names

  /**
    The display name of an item: a name with exactly one '#' whose suffix is
    an integer becomes `base.strip() + " #" + number` with the number
    zero-padded to `width`; any other name is kept as it is.
  */
  function FormatName(name: string, width: nat): (r: string)
    ensures |Split(name, '#')| != 2 ==> r == name
    ensures |Split(name, '#')| == 2 && ParseInt(Split(name, '#')[1]).None? ==> r == name
    ensures r != name ==> CountChar(name, '#') == 1
  {
    SplitLength(name, '#');
    var parts := Split(name, '#');
    if |parts| == 2 then
      match ParseInt(parts[1])
      case Some(n) => Strip(parts[0]) + " #" + FormatPadded(n, width)
      case None => name
    else name
  }

  /** A stripped base without '#' followed by " #" and a padded number splits back into its parts. */
  lemma FormattedNameParts(b: string, n: int, width: nat)
    requires '#' !in b
    requires b == [] || (!IsSpace(b[0]) && !IsSpace(b[|b| - 1]))
    ensures var f := FormatPadded(n, width);
      && Split(b + " #" + f, '#') == [b + " ", f]
      && ParseInt(f) == Some(n)
      && Strip(b + " ") == b
  {
    var f := FormatPadded(n, width);
    HashSeparated(b, f);
    FormatPaddedChars(n, width);
    assert !IsDigit('#');
    assert '#' !in f;
    assert '#' !in b + " ";
    SplitTwo(b + " ", f, '#');
    ParseFormatted(n, width);
    StripTrailingBlank(b);
  }

  /**
    A name `base#digits` whose suffix parses to `n` becomes the stripped base,
    one blank, '#', and `n` again, padded to at least `width` characters.
  */
  lemma FormatNameParsed(b: string, d: string, n: int, width: nat)
    requires '#' !in b
    requires ParseInt(d) == Some(n)
    ensures var r := FormatName(b + "#" + d, width);
      exists f ::
        && f == FormatPadded(n, width)
        && r == Strip(b) + " #" + f
        && Split(r, '#') == [Strip(b) + " ", f]
        && ParseInt(f) == Some(n)
        && |f| >= width
  {
    ParseIntChars(d);
    assert !IsSpace('#') && !DigitOrUnderscore('#');
    assert '#' !in d;
    assert b + "#" + d == b + ['#'] + d;
    SplitTwo(b, d, '#');
    var s := Strip(b);
    StripShape(b);
    assert '#' !in s;
    FormattedNameParts(s, n, width);
    var f := FormatPadded(n, width);
    assert FormatName(b + "#" + d, width) == s + " #" + f;
  }

  lemma HashSeparated(b: string, f: string)
    ensures b + " #" + f == (b + " ") + ['#'] + f
  {
    assert " #" == " " + ['#'];
  }

  /** A formatted name is formatted again to itself. */
  lemma FormatNameIdempotent(name: string, width: nat)
    ensures FormatName(FormatName(name, width), width) == FormatName(name, width)
  {
    var parts := Split(name, '#');
    if |parts| == 2 && ParseInt(parts[1]).Some? {
      var b := Strip(parts[0]);
      StripShape(parts[0]);
      assert '#' !in parts[0];
      assert '#' !in b;
      FormattedNameParts(b, ParseInt(parts[1]).value, width);
    }
  }

  // ---------------------------------------------------------------------------
  // Rank assignment

  /** The ids of featured items; an item without id contributes "". */
  function FeaturedIds(items: seq<Item>): (ids: set<string>)
    ensures forall k :: 0 <= k < |items| && IsFeatured(items[k]) ==> items[k].key.GetOr("") in ids
    ensures forall id :: id in ids ==> exists k :: 0 <= k < |items| && IsFeatured(items[k]) && items[k].key.GetOr("") == id
    ensures ids == {} <==> forall k :: 0 <= k < |items| ==> !IsFeatured(items[k])
  {
    set k | 0 <= k < |items| && IsFeatured(items[k]) :: items[k].key.GetOr("")
  }

  /** The state of the rank-assignment loop: ranks so far, the id-to-rank table, the next regular rank. */
  datatype RankState = RankState(ranks: seq<nat>, table: map<string, nat>, counter: nat)

  /**
    One step of the rank-assignment loop for the entry at 1-based position
    `pos`. Featured items get rank 1; with featured items present the others
    take the running counter (from 2), otherwise their position. The id table
    records the rank unless the id is a featured one.
  */
  function RankStep(st: RankState, e: Entry, pos: nat, ids: set<string>): (r: RankState)
    ensures |r.ranks| == |st.ranks| + 1 && r.ranks[..|st.ranks|] == st.ranks
    ensures IsFeatured(e.item) ==> r.ranks[|st.ranks|] == 1
    ensures r.counter == st.counter || (r.counter == st.counter + 1 && !IsFeatured(e.item) && ids != {})
    ensures forall id :: id in ids ==> (id in r.table <==> id in st.table) && (id in st.table ==> r.table[id] == st.table[id])
    ensures forall id :: id != e.item.key.GetOr("") ==> (id in r.table <==> id in st.table) && (id in st.table ==> r.table[id] == st.table[id])
  {
    var id := e.item.key.GetOr("");
    var featured := IsFeatured(e.item);
    var rank := if featured then 1 else if ids != {} then st.counter else pos;
    var counter := if !featured && ids != {} then st.counter + 1 else st.counter;
    var table := if id !in ids then st.table[id := rank] else st.table;
    RankState(st.ranks + [rank], table, counter)
  }

  /** The rank-assignment loop over the sorted entries. */
  function AssignRanks(entries: seq<Entry>, ids: set<string>): (st: RankState)
    ensures |st.ranks| == |entries|
    ensures forall id :: id in ids ==> id in st.table && st.table[id] == 1
  {
    if entries == [] then RankState([], map id | id in ids :: 1, if ids != {} then 2 else 1)
    else RankStep(AssignRanks(entries[..|entries| - 1], ids), entries[|entries| - 1], |entries|, ids)
  }

  /**
    The rank the loop gives the entry at index `k`: 1 when featured; otherwise
    one more than the number of non-featured entries before it, plus one more
    when featured items exist (rank 1 is theirs).
  */
  function ExpectedRank(entries: seq<Entry>, ids: set<string>, k: nat): nat
    requires k < |entries|
  {
    if IsFeatured(entries[k].item) then 1
    else (if ids != {} then 2 else 1) + CountWhere(NotFeatured, entries[..k])
  }

  /** Without featured ids no entry is featured (the ids come from the same items). */
  ghost predicate IdsConsistent(entries: seq<Entry>, ids: set<string>) {
    ids != {} || forall k :: 0 <= k < |entries| ==> !IsFeatured(entries[k].item)
  }

  /** Every entry gets its expected rank, and the counter is the next regular rank. */
  lemma {:induction false} AssignRanksRanks(entries: seq<Entry>, ids: set<string>)
    requires IdsConsistent(entries, ids)
    ensures var st := AssignRanks(entries, ids);
      && (ids != {} ==> st.counter == 2 + CountWhere(NotFeatured, entries))
      && forall k :: 0 <= k < |entries| ==> st.ranks[k] == ExpectedRank(entries, ids, k)
  {
    if entries != [] {
      var n := |entries|;
      var pre := entries[..n - 1];
      var e := entries[n - 1];
      assert entries == pre + [e];
      assert IdsConsistent(pre, ids) by {
        assert forall k :: 0 <= k < |pre| ==> pre[k] == entries[k];
      }
      AssignRanksRanks(pre, ids);
      var prev := AssignRanks(pre, ids);
      var st := AssignRanks(entries, ids);
      assert st.ranks == prev.ranks + [st.ranks[n - 1]];
      CountWhereConcat(NotFeatured, pre, [e]);
      forall k | 0 <= k < n
        ensures st.ranks[k] == ExpectedRank(entries, ids, k)
      {
        if k < n - 1 {
          assert entries[..k] == pre[..k];
          assert entries[k] == pre[k];
        } else {
          assert entries[..k] == pre;
          if ids == {} && !IsFeatured(e.item) {
            CountWhereBound(NotFeatured, pre);
          }
        }
      }
    }
  }

  /** The last index of an entry whose id is `id`, or `|entries|` when there is none. */
  function LastWithId(entries: seq<Entry>, id: string): (r: nat)
    ensures r <= |entries|
    ensures r < |entries| ==> entries[r].item.key.GetOr("") == id
    ensures r < |entries| ==> forall j :: r < j < |entries| ==> entries[j].item.key.GetOr("") != id
    ensures r == |entries| ==> forall j :: 0 <= j < |entries| ==> entries[j].item.key.GetOr("") != id
  {
    if entries == [] then 0
    else if entries[|entries| - 1].item.key.GetOr("") == id then |entries| - 1
    else
      var r := LastWithId(entries[..|entries| - 1], id);
      if r == |entries| - 1 then |entries| else r
  }

  /**
    The id-to-rank table: featured ids map to 1; any other id is present
    exactly when some entry has it, and then maps to the rank of the last such
    entry (later entries overwrite earlier ones).
  */
  lemma {:induction false} AssignRanksTable(entries: seq<Entry>, ids: set<string>, id: string)
    ensures var st := AssignRanks(entries, ids);
      && (id in ids ==> id in st.table && st.table[id] == 1)
      && (id !in ids ==>
            var last := LastWithId(entries, id);
            && (id in st.table <==> last < |entries|)
            && (last < |entries| ==> st.table[id] == st.ranks[last]))
  {
    if entries != [] {
      var n := |entries|;
      var pre := entries[..n - 1];
      AssignRanksTable(pre, ids, id);
      var prev := AssignRanks(pre, ids);
      var st := AssignRanks(entries, ids);
      assert st.ranks[..n - 1] == prev.ranks;
    }
  }

  /** One line of the rankings file, with the rank also kept as a number. */
  datatype RankLine = RankLine(rank: nat, rankText: string, name: string, rarestType: string,
                               rarestValue: Value, link: string)

  /**
    The line written for entry `e` of rank `rank` in a collection of `total`
    items: the padded rank, the name formatted to the width of `str(total)`,
    the rarest trait's type and value, and the item's page.
  */
  function MakeLine(e: Entry, rank: nat, total: nat): (l: RankLine)
    ensures l.rank == rank
    ensures l.rankText == RankString(rank, total)
    ensures l.name == FormatName(e.name, |Decimal(total)|)
    ensures l.rarestType == e.rarest.traitType && l.rarestValue == e.rarest.value
    ensures l.link == LinkPrefix + e.item.key.GetOr("")
  {
    var id := e.item.key.GetOr("");
    RankLine(rank, RankString(rank, total), FormatName(e.name, |Decimal(total)|),
             e.rarest.traitType, e.rarest.value, LinkPrefix + id)
  }

  /** The lines of the rankings file, in entry order. */
  function RankLines(entries: seq<Entry>, ranks: seq<nat>, total: nat): (ls: seq<RankLine>)
    requires |ranks| == |entries|
    ensures |ls| == |entries|
    ensures forall k :: 0 <= k < |ls| ==> ls[k].rank == ranks[k] && ls[k].rankText == RankString(ranks[k], total)
    ensures forall k :: 0 <= k < |ls| ==>
      && ls[k].name == FormatName(entries[k].name, |Decimal(total)|)
      && ls[k].rarestType == entries[k].rarest.traitType
      && ls[k].rarestValue == entries[k].rarest.value
      && ls[k].link == LinkPrefix + entries[k].item.key.GetOr("")
  {
    seq(|entries|, k requires 0 <= k < |entries| => MakeLine(entries[k], ranks[k], total))
  }

  // ---------------------------------------------------------------------------
  // Rank bounds and the rank text order

  /** A collection with a featured item has fewer non-featured items than items. */
  lemma FeaturedShrinksCount(items: seq<Item>)
    requires FeaturedIds(items) != {}
    ensures CountWhere(NotFeaturedItem, items) < |items|
  {
    var k := FeaturedWitness(items);
    CountWhereMissing(NotFeaturedItem, items, k);
  }

  /** A featured id comes from a featured item. */
  lemma FeaturedWitness(items: seq<Item>) returns (k: nat)
    requires FeaturedIds(items) != {}
    ensures k < |items| && IsFeatured(items[k])
  {
    var id :| id in FeaturedIds(items);
    k :| 0 <= k < |items| && IsFeatured(items[k]) && items[k].key.GetOr("") == id;
  }

  /** Some featured entry means some featured item, hence some featured id. */
  lemma RankingsIdsConsistent(items: seq<Item>)
    requires WellFormed(items)
    ensures IdsConsistent(Rankings(items), FeaturedIds(items))
  {
    var es := Rankings(items);
    forall k | 0 <= k < |es| && IsFeatured(es[k].item)
      ensures FeaturedIds(items) != {}
    {
      SortDescMembers(TotalOf, Entries(items), es[k]);
      var x := es[k].item;
      assert x in items;
      var i :| 0 <= i < |items| && items[i] == x;
      assert x.key.GetOr("") in FeaturedIds(items);
    }
  }

  /** A non-featured entry has fewer non-featured entries before it than in the whole list. */
  lemma NotFeaturedBefore(es: seq<Entry>, k: nat)
    requires k < |es| && !IsFeatured(es[k].item)
    ensures CountWhere(NotFeatured, es[..k]) < CountWhere(NotFeatured, es)
  {
    CountWhereUpTo(NotFeatured, es, k);
  }

  /** Ranks are at least 1 and at most the number of regular ranks plus the featured one. */
  lemma RanksBoundedBy(es: seq<Entry>, ids: set<string>, bound: nat)
    requires IdsConsistent(es, ids)
    requires CountWhere(NotFeatured, es) + (if ids != {} then 1 else 0) <= bound
    ensures forall k :: 0 <= k < |es| ==> 1 <= AssignRanks(es, ids).ranks[k] <= bound
  {
    AssignRanksRanks(es, ids);
    forall k | 0 <= k < |es| && !IsFeatured(es[k].item)
      ensures AssignRanks(es, ids).ranks[k] <= bound
    {
      NotFeaturedBefore(es, k);
    }
  }

  /** The ranked entries hold no more non-featured items than the collection, and fewer when some item is featured. */
  lemma RankingsNotFeatured(items: seq<Item>)
    requires WellFormed(items)
    ensures CountWhere(NotFeatured, Rankings(items)) + (if FeaturedIds(items) != {} then 1 else 0) <= |items|
  {
    SortDescCount(TotalOf, NotFeatured, Entries(items));
    WellFormedScorable(items);
    CollectNotFeatured(items, items);
    CountWhereBound(NotFeaturedItem, items);
    if FeaturedIds(items) != {} {
      FeaturedShrinksCount(items);
    }
  }

  /** The ranks of the sorted entries, in order. */
  function Ranks(items: seq<Item>): (rs: seq<nat>)
    requires WellFormed(items)
    ensures |rs| == |Rankings(items)|
  {
    AssignRanks(Rankings(items), FeaturedIds(items)).ranks
  }

  /** Every assigned rank lies between 1 and the collection size. */
  lemma RanksBounded(items: seq<Item>)
    requires WellFormed(items)
    ensures forall k :: 0 <= k < |Ranks(items)| ==> 1 <= Ranks(items)[k] <= |items|
  {
    RankingsIdsConsistent(items);
    RankingsNotFeatured(items);
    RanksBoundedBy(Rankings(items), FeaturedIds(items), |items|);
  }

  // ---------------------------------------------------------------------------
  // Metadata update

  /** The attributes without any whose type is "rank" in any letter case. */
  function WithoutRankAttrs(attrs: seq<Attr>): (r: seq<Attr>)
    ensures |r| <= |attrs|
    ensures forall a :: a in r <==> a in attrs && !IsRankTrait(a.traitType)
  {
    if attrs == [] then []
    else
      var rest := WithoutRankAttrs(attrs[1..]);
      assert attrs == [attrs[0]] + attrs[1..];
      if IsRankTrait(attrs[0].traitType) then rest else [attrs[0]] + rest
  }

  /** Removing rank attributes from a list that has none changes nothing. */
  lemma {:induction false} WithoutRankAttrsNone(attrs: seq<Attr>)
    requires NoRankAttrs(attrs)
    ensures WithoutRankAttrs(attrs) == attrs
  {
    if attrs != [] {
      WithoutRankAttrsNone(attrs[1..]);
      assert attrs == [attrs[0]] + attrs[1..];
    }
  }

  /** Removing rank attributes keeps the order of the others: it distributes over concatenation. */
  lemma {:induction false} WithoutRankAttrsConcat(a: seq<Attr>, b: seq<Attr>)
    ensures WithoutRankAttrs(a + b) == WithoutRankAttrs(a) + WithoutRankAttrs(b)
  {
    if a == [] {
      assert a + b == b;
    } else {
      assert (a + b)[1..] == a[1..] + b;
      WithoutRankAttrsConcat(a[1..], b);
    }
  }

  /** The first attribute whose type is "rarity" in any letter case, or `|attrs|`. */
  function FirstRarity(attrs: seq<Attr>): (r: nat)
    ensures r <= |attrs|
    ensures r < |attrs| ==> IsRarityTrait(attrs[r].traitType)
    ensures forall j :: 0 <= j < r ==> !IsRarityTrait(attrs[j].traitType)
  {
    if attrs == [] then 0
    else if IsRarityTrait(attrs[0].traitType) then 0
    else 1 + FirstRarity(attrs[1..])
  }

  /** No attribute of `s` is a rank attribute. */
  predicate NoRankAttrs(s: seq<Attr>) {
    forall k :: 0 <= k < |s| ==> !IsRankTrait(s[k].traitType)
  }

  /** What is left after removing the rank attributes has none. */
  lemma WithoutRankAttrsClean(attrs: seq<Attr>)
    ensures NoRankAttrs(WithoutRankAttrs(attrs))
  {
    var kept := WithoutRankAttrs(attrs);
    forall k | 0 <= k < |kept|
      ensures !IsRankTrait(kept[k].traitType)
    {
      assert kept[k] in kept;
    }
  }

  /**
    `r` is `kept` with the rank written: the first rarity attribute, or a new
    `Rarity` attribute appended when there is none, holds the rank; every other
    attribute keeps its place and its value.
  */
  ghost predicate RankWritten(kept: seq<Attr>, rank: nat, r: seq<Attr>) {
    var i := FirstRarity(kept);
    && |r| == (if i < |kept| then |kept| else |kept| + 1)
    && FirstRarity(r) == i
    && r[i].value == Number(rank)
    && (forall k :: 0 <= k < |kept| && k != i ==> r[k] == kept[k])
    && (i < |kept| ==> r[i].traitType == kept[i].traitType)
    && (i == |kept| ==> r[i].traitType == "Rarity")
  }

  /** The type of an appended rarity attribute, "Rarity", is a rarity trait and not a rank trait. */
  lemma RarityWord()
    ensures IsRarityTrait("Rarity") && !IsRankTrait("Rarity")
  {
  }

  /** Overwriting the value of the first rarity attribute writes the rank. */
  lemma RankWrittenInPlace(kept: seq<Attr>, rank: nat)
    requires FirstRarity(kept) < |kept|
    ensures var i := FirstRarity(kept);
      RankWritten(kept, rank, kept[i := kept[i].(value := Number(rank))])
  {
    var i := FirstRarity(kept);
    var r := kept[i := kept[i].(value := Number(rank))];
    FirstRarityOverwritten(kept, rank);
    RankWrittenIntro(kept, rank, r);
  }

  /** Overwriting the value of the first rarity attribute keeps it the first. */
  lemma FirstRarityOverwritten(kept: seq<Attr>, rank: nat)
    requires FirstRarity(kept) < |kept|
    ensures var i := FirstRarity(kept);
      FirstRarity(kept[i := kept[i].(value := Number(rank))]) == i
  {
    var i := FirstRarity(kept);
    var r := kept[i := kept[i].(value := Number(rank))];
    assert r[i].traitType == kept[i].traitType;
    assert forall k :: 0 <= k < i ==> kept[k] == r[k];
    FirstRarityFrame(kept, r, i);
  }

  /** `RankWritten` from its parts, for a list of the same length that keeps its first rarity attribute's type. */
  lemma RankWrittenIntro(kept: seq<Attr>, rank: nat, r: seq<Attr>)
    requires FirstRarity(kept) < |kept| == |r|
    requires FirstRarity(r) == FirstRarity(kept)
    requires r == kept[FirstRarity(kept) := kept[FirstRarity(kept)].(value := Number(rank))]
    ensures RankWritten(kept, rank, r)
  {
    var i := FirstRarity(kept);
    assert r[i].value == Number(rank) && r[i].traitType == kept[i].traitType;
    assert forall k :: 0 <= k < |kept| && k != i ==> r[k] == kept[k];
  }

  /** Changing values only, never types, keeps a list free of rank attributes. */
  lemma SameTypesNoRank(a: seq<Attr>, b: seq<Attr>)
    requires NoRankAttrs(a) && |a| == |b|
    requires forall k :: 0 <= k < |b| ==> b[k].traitType == a[k].traitType
    ensures NoRankAttrs(b)
  {
    forall k | 0 <= k < |b|
      ensures !IsRankTrait(b[k].traitType)
    {
      assert !IsRankTrait(a[k].traitType);
    }
  }

  /** Appending a `Rarity` attribute to a list without one writes the rank. */
  lemma RankWrittenAppended(kept: seq<Attr>, rank: nat)
    requires FirstRarity(kept) == |kept|
    ensures RankWritten(kept, rank, kept + [Attr("Rarity", Number(rank))])
  {
    var r := kept + [Attr("Rarity", Number(rank))];
    RarityWord();
    FirstRarityFrame(kept, r, |kept|);
  }

  /** Appending a `Rarity` attribute adds no rank attribute. */
  lemma AppendedNoRank(kept: seq<Attr>, rank: nat)
    requires NoRankAttrs(kept)
    ensures NoRankAttrs(kept + [Attr("Rarity", Number(rank))])
  {
    var r := kept + [Attr("Rarity", Number(rank))];
    RarityWord();
    forall k | 0 <= k < |r|
      ensures !IsRankTrait(r[k].traitType)
    {
      if k < |kept| {
        assert r[k] == kept[k];
      }
    }
  }

  /**
    The metadata rewrite for an item of rank `rank`: every rank attribute is
    removed; then the first rarity attribute takes the rank as its value, or a
    `Rarity` attribute with the rank is appended when there is none. Every other
    attribute keeps its place and its value.
  */
  function UpdateAttrs(attrs: seq<Attr>, rank: nat): (r: seq<Attr>)
    ensures RankWritten(WithoutRankAttrs(attrs), rank, r)
    ensures NoRankAttrs(r)
  {
    var kept := WithoutRankAttrs(attrs);
    var i := FirstRarity(kept);
    WithoutRankAttrsClean(attrs);
    if i < |kept| then
      var r := kept[i := kept[i].(value := Number(rank))];
      RankWrittenInPlace(kept, rank);
      SameTypesNoRank(kept, r);
      r
    else
      RankWrittenAppended(kept, rank);
      AppendedNoRank(kept, rank);
      kept + [Attr("Rarity", Number(rank))]
  }

  /** Two lists that agree before index `i` and both have a rarity attribute there share `FirstRarity`. */
  lemma {:induction false} FirstRarityFrame(a: seq<Attr>, b: seq<Attr>, i: nat)
    requires FirstRarity(a) == i
    requires i < |b| && IsRarityTrait(b[i].traitType)
    requires i <= |a| && forall k :: 0 <= k < i ==> a[k] == b[k]
    ensures FirstRarity(b) == i
  {
    if i > 0 {
      assert a[0] == b[0];
      FirstRarityFrame(a[1..], b[1..], i - 1);
    }
  }

  /** Rewriting the rank twice is the same as rewriting it once with the second rank. */
  lemma UpdateAttrsTwice(attrs: seq<Attr>, first: nat, second: nat)
    ensures UpdateAttrs(UpdateAttrs(attrs, first), second) == UpdateAttrs(attrs, second)
  {
    var u := UpdateAttrs(attrs, first);
    WithoutRankAttrsNone(u);
    var kept := WithoutRankAttrs(attrs);
    var v := UpdateAttrs(u, second);
    var w := UpdateAttrs(attrs, second);
    assert |v| == |w|;
    forall k | 0 <= k < |v|
      ensures v[k] == w[k]
    {
    }
  }

  /** The rank written into an item's metadata: 1 if featured, else its id's entry in the table. */
  function RankFor(x: Item, ranks: map<string, nat>): (r: Option<nat>)
    ensures IsFeatured(x) ==> r == Some(1)
    ensures r.None? <==> !IsFeatured(x) && (x.key.None? || x.key.value !in ranks)
    ensures r.Some? && !IsFeatured(x) ==> x.key.Some? && x.key.value in ranks && r.value == ranks[x.key.value]
  {
    if IsFeatured(x) then Some(1)
    else
      match x.key
      case None => None
      case Some(id) => if id in ranks then Some(ranks[id]) else None
  }

  /** An item without a rank is left untouched; a ranked one gets its attributes rewritten. */
  function UpdateItem(x: Item, ranks: map<string, nat>): (r: Item)
    ensures RankFor(x, ranks).None? ==> r == x
    ensures r.name == x.name && r.key == x.key
    ensures RankFor(x, ranks).Some? ==> r.attrs == UpdateAttrs(x.attrs, RankFor(x, ranks).value)
  {
    match RankFor(x, ranks)
    case None => x
    case Some(rank) => x.(attrs := UpdateAttrs(x.attrs, rank))
  }

  function UpdateAll(items: seq<Item>, ranks: map<string, nat>): (r: seq<Item>)
    ensures |r| == |items|
    ensures forall k :: 0 <= k < |items| ==> r[k] == UpdateItem(items[k], ranks)
  {
    if items == [] then [] else [UpdateItem(items[0], ranks)] + UpdateAll(items[1..], ranks)
  }

  // ---------------------------------------------------------------------------
  // The whole computation

  /** What the script writes: the rankings file's lines and the updated metadata. */
  datatype Report = Report(rankings: seq<RankLine>, metadata: seq<Item>)

  function NegRank(l: RankLine): real {
    -(l.rank as real)
  }

  /**
    The rank lines in file order. The script sorts them by their rank text;
    `RankFileOrder` shows that sorting stably by the rank number puts them in
    that order.
  */
  function SortedLines(items: seq<Item>): (ls: seq<RankLine>)
    requires WellFormed(items)
    ensures |ls| == |Entries(items)|
    ensures multiset(ls) == multiset(LoopLines(items))
    ensures SortedDesc(NegRank, ls)
  {
    SortDesc(NegRank, LoopLines(items))
  }

  /** The rank lines in the order the ranking loop appends them. */
  function LoopLines(items: seq<Item>): seq<RankLine>
    requires WellFormed(items)
  {
    RankLines(Rankings(items), Ranks(items), |items|)
  }

  /** The sort of the rank lines is stable: lines of equal rank stay in loop order. */
  lemma SortedLinesStable(items: seq<Item>, rank: real)
    requires WellFormed(items)
    ensures WithKey(NegRank, rank, SortedLines(items)) == WithKey(NegRank, rank, LoopLines(items))
  {
    SortDescStable(NegRank, rank, LoopLines(items));
  }

  /** Rank texts all of the width of `str(total)`, and never lexicographically smaller than an earlier one. */
  ghost predicate InTextOrder(ls: seq<RankLine>, total: nat) {
    && (forall k :: 0 <= k < |ls| ==> |ls[k].rankText| == |Decimal(total)|)
    && (forall i, j :: 0 <= i < j < |ls| ==> !LexLess(ls[j].rankText, ls[i].rankText))
  }

  /** Lines whose rank texts are their ranks padded to one width come out of the rank sort in text order. */
  lemma RankSortTextOrder(lines: seq<RankLine>, total: nat)
    requires forall k :: 0 <= k < |lines| ==>
      lines[k].rankText == RankString(lines[k].rank, total) && lines[k].rank <= total
    ensures InTextOrder(SortDesc(NegRank, lines), total)
  {
    var ls := SortDesc(NegRank, lines);
    forall k | 0 <= k < |ls|
      ensures ls[k].rankText == RankString(ls[k].rank, total) && ls[k].rank <= total
    {
      SortDescMembers(NegRank, lines, ls[k]);
      assert ls[k] in lines;
    }
    forall k | 0 <= k < |ls|
      ensures |ls[k].rankText| == |Decimal(total)|
    {
      RankStringOrder(ls[k].rank, ls[k].rank, total);
    }
    forall i, j | 0 <= i < j < |ls|
      ensures !LexLess(ls[j].rankText, ls[i].rankText)
    {
      assert NegRank(ls[i]) >= NegRank(ls[j]);
      RankStringOrder(ls[j].rank, ls[i].rank, total);
    }
  }

  /**
    The rankings file is ordered by rank text: no line's text is
    lexicographically smaller than an earlier line's, and all texts have the
    width of `str(total_items)`.
  */
  lemma RankFileOrder(items: seq<Item>)
    requires WellFormed(items)
    ensures InTextOrder(SortedLines(items), |items|)
  {
    var lines := RankLines(Rankings(items), Ranks(items), |items|);
    RanksBounded(items);
    assert forall k :: 0 <= k < |lines| ==> lines[k].rank == Ranks(items)[k];
    assert forall k :: 0 <= k < |lines| ==> lines[k].rank <= |items|;
    RankSortTextOrder(lines, |items|);
    assert SortedLines(items) == SortDesc(NegRank, lines);
  }

  /**
    The rarity computation on loaded metadata: an empty collection is an
    error; otherwise the rank lines in file order and every item with its rank
    written back.
  */
  function CalculateRarity(items: seq<Item>): (r: Result<Report, string>)
    requires WellFormed(items)
    ensures r.Failure? <==> |items| == 0
    ensures r.Failure? ==> r.error == NoItemsMessage
    ensures r.Success? ==> |r.value.metadata| == |items| && |r.value.rankings| <= |items|
    ensures r.Success? ==> multiset(r.value.rankings) == multiset(LoopLines(items))
    ensures r.Success? ==> InTextOrder(r.value.rankings, |items|)
  {
    if |items| == 0 then Failure(NoItemsMessage)
    else
      RankFileOrder(items);
      var st := AssignRanks(Rankings(items), FeaturedIds(items));
      Success(Report(SortedLines(items), UpdateAll(items, st.table)))
  }

  /**
    Each item's written-back rank: featured items get 1, items that were
    ranked get the rank of the last ranked entry with their id, and items
    whose id appears in no entry are left unchanged.
  */
  lemma CalculateRarityMetadata(items: seq<Item>, i: nat)
    requires WellFormed(items) && i < |items|
    ensures var es := Rankings(items);
      var ids := FeaturedIds(items);
      var st := AssignRanks(es, ids);
      var x := items[i];
      && (IsFeatured(x) ==> CalculateRarity(items).value.metadata[i].attrs == UpdateAttrs(x.attrs, 1))
      && (x.key.Some? && x.key.value in ids ==> CalculateRarity(items).value.metadata[i].attrs == UpdateAttrs(x.attrs, 1))
      && (!IsFeatured(x) && x.key.Some? && x.key.value !in ids && LastWithId(es, x.key.value) < |es| ==>
            CalculateRarity(items).value.metadata[i].attrs == UpdateAttrs(x.attrs, st.ranks[LastWithId(es, x.key.value)]))
      && (!IsFeatured(x) && (x.key.None? || (x.key.value !in ids && LastWithId(es, x.key.value) == |es|)) ==>
            CalculateRarity(items).value.metadata[i] == x)
  {
    var x := items[i];
    var st := AssignRanks(Rankings(items), FeaturedIds(items));
    assert CalculateRarity(items).value.metadata == UpdateAll(items, st.table);
    if x.key.Some? {
      AssignRanksTable(Rankings(items), FeaturedIds(items), x.key.value);
    }
  }
}
