/** Keyword categorization of imported transactions (src/lib/categorizer.ts). */
module Categorizer {
  import opened Types
  import opened Strings

  datatype Keyword = Keyword(key: string, category: Category)

  /** Every key of a group mapped to one category. */
  function Group(keys: seq<string>, c: Category): (g: seq<Keyword>)
    ensures |g| == |keys|
    ensures forall i :: 0 <= i < |g| ==> g[i] == Keyword(keys[i], c)
  {
    seq(|keys|, i requires 0 <= i < |keys| => Keyword(keys[i], c))
  }

  const FOOD_KEYS: seq<string> := ["food", "eatery", "restaurant", "chicken", "pizza"]
  const TRANSPORT_KEYS: seq<string> := ["uber", "bolt", "fuel", "ride"]
  const UTILITY_KEYS: seq<string> := ["airtime", "mtn", "glo", "electric", "data"]
  const BETTING_KEYS: seq<string> := ["bet", "sporty", "msport", "1xbet", "football", "gamble"]
  const FEE_KEYS: seq<string> := ["levy", "charge", "vat"]
  const SHOPPING_KEYS: seq<string> := ["market", "supermarket", "store", "groceries"]
  const INTERNAL_KEYS: seq<string> := ["owealth", "auto-save", "saving"]
  const TRANSFER_KEYS: seq<string> := ["transfer", "sent"]

  /** `KEYWORDS`, in declaration order (the order `Object.entries` yields,
      none of the keys being an integer literal): 32 entries, Internal at
      27..29 and Transfer at 30..31. */
  const KEYWORDS: seq<Keyword> :=
    Group(FOOD_KEYS, Food) + Group(TRANSPORT_KEYS, Transport) + Group(UTILITY_KEYS, Utilities)
    + Group(BETTING_KEYS, Entertainment) + Group(FEE_KEYS, Fees) + Group(SHOPPING_KEYS, Shopping)
    + Group(INTERNAL_KEYS, Internal) + Group(TRANSFER_KEYS, Transfer)

  /** Where the groups of the table lie. */
  lemma KeywordLayout()
    ensures |KEYWORDS| == 32
    ensures forall i :: 0 <= i < |KEYWORDS| ==> KEYWORDS[i].category != Salary
    ensures forall i :: 0 <= i < |KEYWORDS| ==> KEYWORDS[i].category != Uncategorized
    ensures forall i :: 0 <= i < 30 ==> KEYWORDS[i].category != Transfer
    ensures KEYWORDS[27] == Keyword("owealth", Internal)
    ensures KEYWORDS[28] == Keyword("auto-save", Internal)
    ensures KEYWORDS[29] == Keyword("saving", Internal)
  {
  }

  /** Keyword i is the first entry of the table that occurs in text. */
  ghost predicate FirstHit(text: string, table: seq<Keyword>, i: int) {
    0 <= i < |table| && Contains(text, table[i].key)
    && forall j :: 0 <= j < i ==> !Contains(text, table[j].key)
  }

  /** The category of the first entry of table whose key occurs in text,
      'Uncategorized' when none does. */
  function CategoryIn(text: string, table: seq<Keyword>): Category
    decreases |table|
  {
    if table == [] then Uncategorized
    else if Contains(text, table[0].key) then table[0].category
    else CategoryIn(text, table[1..])
  }

  /** The category `autoCategorize` assigns to a scanned text. */
  function CategoryOf(text: string): Category {
    CategoryIn(text, KEYWORDS)
  }

  /** First match wins: the category is that of the first entry that
      occurs, and 'Uncategorized' exactly when no entry occurs (provided
      the table never maps a key to 'Uncategorized'). */
  lemma {:induction false} FirstMatchWins(text: string, table: seq<Keyword>)
    requires forall j :: 0 <= j < |table| ==> table[j].category != Uncategorized
    ensures forall i :: FirstHit(text, table, i) ==> CategoryIn(text, table) == table[i].category
    ensures CategoryIn(text, table) == Uncategorized
            <==> forall j :: 0 <= j < |table| ==> !Contains(text, table[j].key)
    decreases |table|
  {
    if table != [] && !Contains(text, table[0].key) {
      FirstMatchWins(text, table[1..]);
      forall i | FirstHit(text, table, i) ensures CategoryIn(text, table) == table[i].category {
        assert i != 0;
        assert FirstHit(text, table[1..], i - 1);
      }
      forall j | 0 <= j < |table| - 1 ensures table[1..][j] == table[j + 1] { }
    }
  }

  /** Priority by order: when entry j occurs in text, the category comes
      from some entry at or before j. */
  lemma {:induction false} CategoryFromEarlierEntry(text: string, table: seq<Keyword>, j: nat)
    requires j < |table| && Contains(text, table[j].key)
    ensures exists i :: 0 <= i <= j && CategoryIn(text, table) == table[i].category
    decreases j
  {
    if !Contains(text, table[0].key) {
      CategoryFromEarlierEntry(text, table[1..], j - 1);
      var i :| 0 <= i <= j - 1 && CategoryIn(text, table[1..]) == table[1..][i].category;
      assert CategoryIn(text, table) == table[i + 1].category;
    } else {
      assert CategoryIn(text, table) == table[0].category;
    }
  }

  /** The category is always one the table mentions, or 'Uncategorized'. */
  lemma {:induction false} CategoryFromTable(text: string, table: seq<Keyword>)
    ensures CategoryIn(text, table) == Uncategorized
            || exists i :: 0 <= i < |table| && CategoryIn(text, table) == table[i].category
    decreases |table|
  {
    if table != [] && !Contains(text, table[0].key) {
      CategoryFromTable(text, table[1..]);
      if CategoryIn(text, table[1..]) != Uncategorized {
        var i :| 0 <= i < |table[1..]| && CategoryIn(text, table[1..]) == table[1..][i].category;
        assert CategoryIn(text, table) == table[i + 1].category;
      }
    }
  }

  /** No keyword maps to 'Salary', so no text is ever categorized as salary. */
  lemma NeverSalary(text: string)
    ensures CategoryOf(text) != Salary
  {
    KeywordLayout();
    CategoryFromTable(text, KEYWORDS);
  }

  /** Internal keywords are checked before the transfer keywords: a text
      that mentions owealth, auto-save or saving is never a 'Transfer'. */
  lemma InternalBeforeTransfer(text: string)
    requires Contains(text, "owealth") || Contains(text, "auto-save") || Contains(text, "saving")
    ensures CategoryOf(text) != Transfer
  {
    KeywordLayout();
    var j := if Contains(text, "owealth") then 27 else if Contains(text, "auto-save") then 28 else 29;
    CategoryFromEarlierEntry(text, KEYWORDS, j);
  }

  /** A key with a letter between 'a' and 'w' in its second or third
      position; `LetterOf` picks that letter. */
  predicate HasLetter(k: string) {
    |k| > 2 && ('a' <= k[1] <= 'w' || 'a' <= k[2] <= 'w')
  }

  function LetterOf(k: string): (c: char)
    requires HasLetter(k)
    ensures c in k && 'a' <= c <= 'w'
  {
    if 'a' <= k[1] <= 'w' then k[1] else k[2]
  }

  ghost predicate Lettered(table: seq<Keyword>) {
    forall j :: 0 <= j < |table| ==> HasLetter(table[j].key)
  }

  lemma LetteredGroup(keys: seq<string>, c: Category)
    requires forall j :: 0 <= j < |keys| ==> HasLetter(keys[j])
    ensures Lettered(Group(keys, c))
  {
  }

  lemma LetteredAppend(a: seq<Keyword>, b: seq<Keyword>)
    requires Lettered(a) && Lettered(b)
    ensures Lettered(a + b)
  {
    forall j | 0 <= j < |a + b| ensures HasLetter((a + b)[j].key) {
      if j < |a| { assert (a + b)[j] == a[j]; } else { assert (a + b)[j] == b[j - |a|]; }
    }
  }

  lemma KeysHaveLetters()
    ensures Lettered(KEYWORDS)
  {
    LetteredGroup(FOOD_KEYS, Food);
    LetteredGroup(TRANSPORT_KEYS, Transport);
    LetteredGroup(UTILITY_KEYS, Utilities);
    LetteredGroup(BETTING_KEYS, Entertainment);
    LetteredGroup(FEE_KEYS, Fees);
    LetteredGroup(SHOPPING_KEYS, Shopping);
    LetteredGroup(INTERNAL_KEYS, Internal);
    LetteredGroup(TRANSFER_KEYS, Transfer);
    var t := Group(FOOD_KEYS, Food);
    LetteredAppend(t, Group(TRANSPORT_KEYS, Transport));
    t := t + Group(TRANSPORT_KEYS, Transport);
    LetteredAppend(t, Group(UTILITY_KEYS, Utilities));
    t := t + Group(UTILITY_KEYS, Utilities);
    LetteredAppend(t, Group(BETTING_KEYS, Entertainment));
    t := t + Group(BETTING_KEYS, Entertainment);
    LetteredAppend(t, Group(FEE_KEYS, Fees));
    t := t + Group(FEE_KEYS, Fees);
    LetteredAppend(t, Group(SHOPPING_KEYS, Shopping));
    t := t + Group(SHOPPING_KEYS, Shopping);
    LetteredAppend(t, Group(INTERNAL_KEYS, Internal));
    t := t + Group(INTERNAL_KEYS, Internal);
    LetteredAppend(t, Group(TRANSFER_KEYS, Transfer));
  }

  /** A text without the letters 'a' to 'w' (a bare reference number, or
      "xyz123") matches no keyword and stays 'Uncategorized'. */
  lemma NoLettersUncategorized(text: string)
    requires forall i :: 0 <= i < |text| ==> !('a' <= text[i] <= 'w')
    ensures CategoryOf(text) == Uncategorized
  {
    KeywordLayout();
    KeysHaveLetters();
    forall j | 0 <= j < |KEYWORDS| ensures !Contains(text, KEYWORDS[j].key) {
      NotContainsMissingChar(text, KEYWORDS[j].key, LetterOf(KEYWORDS[j].key));
    }
    FirstMatchWins(text, KEYWORDS);
  }

  lemma UnknownReferenceUncategorized(text: string)
    requires text == "xyz123"
    ensures CategoryOf(text) == Uncategorized
  {
    NoLettersUncategorized(text);
  }

  /** The first six entries: the food keys, then "uber". */
  lemma LeadingKeywords()
    ensures KEYWORDS[0].key == "food" && KEYWORDS[1].key == "eatery"
    ensures KEYWORDS[2].key == "restaurant" && KEYWORDS[3].key == "chicken"
    ensures KEYWORDS[4].key == "pizza" && KEYWORDS[5] == Keyword("uber", Transport)
  {
  }

  /** A text that contains "uber" but no food key hits "uber" first. */
  lemma UberFirstHit(text: string)
    requires !Contains(text, "food") && !Contains(text, "eatery") && !Contains(text, "restaurant")
    requires !Contains(text, "chicken") && !Contains(text, "pizza") && Contains(text, "uber")
    ensures FirstHit(text, KEYWORDS, 5)
  {
    LeadingKeywords();
  }

  /** Which of the first six keys occur in "uber ride". */
  lemma UberRideKeys(text: string)
    requires text == "uber ride"
    ensures !Contains(text, "food") && !Contains(text, "eatery") && !Contains(text, "restaurant")
    ensures !Contains(text, "chicken") && !Contains(text, "pizza") && Contains(text, "uber")
  {
    NotContainsMissingChar(text, "food", 'f');
    NotContainsMissingChar(text, "eatery", 'a');
    NotContainsMissingChar(text, "restaurant", 'a');
    NotContainsMissingChar(text, "chicken", 'c');
    NotContainsMissingChar(text, "pizza", 'p');
    ContainsAt(text, "uber", 0);
  }

  /** "uber ride" is 'Transport' through "uber", although it also
      contains the later transport key "ride". */
  lemma UberRideIsTransport(text: string)
    requires text == "uber ride"
    ensures CategoryOf(text) == Transport
  {
    KeywordLayout();
    UberRideKeys(text);
    UberFirstHit(text);
    LeadingKeywords();
    FirstMatchWins(text, KEYWORDS);
  }

  /** The text contains none of the keys of the table. */
  ghost predicate Avoids(text: string, table: seq<Keyword>) {
    forall j :: 0 <= j < |table| ==> !Contains(text, table[j].key)
  }

  lemma AvoidsGroup(text: string, keys: seq<string>, c: Category)
    requires forall j :: 0 <= j < |keys| ==> !Contains(text, keys[j])
    ensures Avoids(text, Group(keys, c))
  {
  }

  lemma AvoidsAppend(text: string, a: seq<Keyword>, b: seq<Keyword>)
    requires Avoids(text, a) && Avoids(text, b)
    ensures Avoids(text, a + b)
  {
    forall j | 0 <= j < |a + b| ensures !Contains(text, (a + b)[j].key) {
      if j < |a| { assert (a + b)[j] == a[j]; } else { assert (a + b)[j] == b[j - |a|]; }
    }
  }

  /** Entries whose keys the text does not contain are passed over. */
  lemma {:induction false} SkipAvoided(text: string, a: seq<Keyword>, b: seq<Keyword>)
    requires Avoids(text, a)
    ensures CategoryIn(text, a + b) == CategoryIn(text, b)
    decreases |a|
  {
    if a == [] {
      assert a + b == b;
    } else {
      assert (a + b)[0] == a[0];
      assert (a + b)[1..] == a[1..] + b;
      SkipAvoided(text, a[1..], b);
    }
  }

  // The savings text "owealth auto-save transfer" avoids every key before
  // the Internal group: most keys have a character the text lacks; the
  // four others do not fit in any of its words.

  lemma SavingsLacks(text: string, c: char)
    requires text == "owealth auto-save transfer"
    requires c in "bcdgimpy1"
    ensures c !in text
  {
  }

  lemma SavingsWords(text: string)
    requires text == "owealth auto-save transfer"
    ensures text == "owealth" + [' '] + "auto" + ['-'] + "save" + [' '] + "transfer"
  {
  }

  /** A key without spaces or dashes occurs in words joined by them only
      if it occurs in one of the words. */
  lemma WordsAvoid(a: string, b: string, c: string, d: string, k: string)
    requires ' ' !in k && '-' !in k
    requires !Contains(a, k) && !Contains(b, k) && !Contains(c, k) && !Contains(d, k)
    ensures !Contains(a + [' '] + b + ['-'] + c + [' '] + d, k)
  {
    ContainsSplit(a, ' ', b, k);
    ContainsSplit(a + [' '] + b, '-', c, k);
    ContainsSplit(a + [' '] + b + ['-'] + c, ' ', d, k);
  }

  lemma WordsAvoidRestaurant(a: string, b: string, c: string, d: string, k: string)
    requires a == "owealth" && b == "auto" && c == "save" && d == "transfer" && k == "restaurant"
    ensures !Contains(a + [' '] + b + ['-'] + c + [' '] + d, k)
  {
    assert ' ' !in k && '-' !in k;
    NotContainsLonger(a, k);
    NotContainsLonger(b, k);
    NotContainsLonger(c, k);
    NotContainsLonger(d, k);
    WordsAvoid(a, b, c, d, k);
  }

  lemma WordsAvoidFuel(a: string, b: string, c: string, d: string, k: string)
    requires a == "owealth" && b == "auto" && c == "save" && d == "transfer" && k == "fuel"
    ensures !Contains(a + [' '] + b + ['-'] + c + [' '] + d, k)
  {
    assert 'f' in k && 'l' in k && ' ' !in k && '-' !in k;
    assert 'f' !in a && 'f' !in b && 'f' !in c && 'l' !in d;
    NotContainsMissingChar(a, k, 'f');
    NotContainsMissingChar(b, k, 'f');
    NotContainsMissingChar(c, k, 'f');
    NotContainsMissingChar(d, k, 'l');
    WordsAvoid(a, b, c, d, k);
  }

  lemma WordsAvoidVat(a: string, b: string, c: string, d: string, k: string)
    requires a == "owealth" && b == "auto" && c == "save" && d == "transfer" && k == "vat"
    ensures !Contains(a + [' '] + b + ['-'] + c + [' '] + d, k)
  {
    assert 't' in k && 'v' in k && ' ' !in k && '-' !in k;
    assert 'v' !in a && 'v' !in b && 't' !in c && 'v' !in d;
    NotContainsMissingChar(a, k, 'v');
    NotContainsMissingChar(b, k, 'v');
    NotContainsMissingChar(c, k, 't');
    NotContainsMissingChar(d, k, 'v');
    WordsAvoid(a, b, c, d, k);
  }

  lemma WordsAvoidStore(a: string, b: string, c: string, d: string, k: string)
    requires a == "owealth" && b == "auto" && c == "save" && d == "transfer" && k == "store"
    ensures !Contains(a + [' '] + b + ['-'] + c + [' '] + d, k)
  {
    assert 'o' in k && 's' in k && 't' in k && ' ' !in k && '-' !in k;
    assert 's' !in a && 's' !in b && 't' !in c && 'o' !in d;
    NotContainsMissingChar(a, k, 's');
    NotContainsMissingChar(b, k, 's');
    NotContainsMissingChar(c, k, 't');
    NotContainsMissingChar(d, k, 'o');
    WordsAvoid(a, b, c, d, k);
  }

  lemma FoodAvoided(text: string)
    requires 'c' !in text && 'd' !in text && 'p' !in text && 'y' !in text
    requires !Contains(text, "restaurant")
    ensures forall j :: 0 <= j < |FOOD_KEYS| ==> !Contains(text, FOOD_KEYS[j])
  {
    NotContainsMissingChar(text, "food", 'd');
    NotContainsMissingChar(text, "eatery", 'y');
    NotContainsMissingChar(text, "chicken", 'c');
    NotContainsMissingChar(text, "pizza", 'p');
  }

  lemma TransportAvoided(text: string)
    requires 'b' !in text && 'd' !in text && !Contains(text, "fuel")
    ensures forall j :: 0 <= j < |TRANSPORT_KEYS| ==> !Contains(text, TRANSPORT_KEYS[j])
  {
    NotContainsMissingChar(text, "uber", 'b');
    NotContainsMissingChar(text, "bolt", 'b');
    NotContainsMissingChar(text, "ride", 'd');
  }

  lemma UtilitiesAvoided(text: string)
    requires 'c' !in text && 'd' !in text && 'g' !in text && 'i' !in text && 'm' !in text
    ensures forall j :: 0 <= j < |UTILITY_KEYS| ==> !Contains(text, UTILITY_KEYS[j])
  {
    NotContainsMissingChar(text, "airtime", 'i');
    NotContainsMissingChar(text, "mtn", 'm');
    NotContainsMissingChar(text, "glo", 'g');
    NotContainsMissingChar(text, "electric", 'c');
    NotContainsMissingChar(text, "data", 'd');
  }

  lemma BettingAvoided(text: string)
    requires 'b' !in text && 'g' !in text && 'm' !in text && 'p' !in text && '1' !in text
    ensures forall j :: 0 <= j < |BETTING_KEYS| ==> !Contains(text, BETTING_KEYS[j])
  {
    NotContainsMissingChar(text, "bet", 'b');
    NotContainsMissingChar(text, "sporty", 'p');
    NotContainsMissingChar(text, "msport", 'm');
    NotContainsMissingChar(text, "1xbet", '1');
    NotContainsMissingChar(text, "football", 'b');
    NotContainsMissingChar(text, "gamble", 'g');
  }

  lemma FeesAvoided(text: string)
    requires 'c' !in text && 'y' !in text && !Contains(text, "vat")
    ensures forall j :: 0 <= j < |FEE_KEYS| ==> !Contains(text, FEE_KEYS[j])
  {
    NotContainsMissingChar(text, "levy", 'y');
    NotContainsMissingChar(text, "charge", 'c');
  }

  lemma ShoppingAvoided(text: string)
    requires 'g' !in text && 'm' !in text && 'p' !in text && !Contains(text, "store")
    ensures forall j :: 0 <= j < |SHOPPING_KEYS| ==> !Contains(text, SHOPPING_KEYS[j])
  {
    NotContainsMissingChar(text, "market", 'm');
    NotContainsMissingChar(text, "supermarket", 'p');
    NotContainsMissingChar(text, "groceries", 'g');
  }

  /** The keys before the Internal group, which the savings text avoids. */
  lemma SavingsAvoidsEarlierKeys(text: string)
    requires text == "owealth auto-save transfer"
    ensures Avoids(text, Group(FOOD_KEYS, Food) + Group(TRANSPORT_KEYS, Transport)
                         + Group(UTILITY_KEYS, Utilities) + Group(BETTING_KEYS, Entertainment)
                         + Group(FEE_KEYS, Fees) + Group(SHOPPING_KEYS, Shopping))
  {
    SavingsLacks(text, 'b');
    SavingsLacks(text, 'c');
    SavingsLacks(text, 'd');
    SavingsLacks(text, 'g');
    SavingsLacks(text, 'i');
    SavingsLacks(text, 'm');
    SavingsLacks(text, 'p');
    SavingsLacks(text, 'y');
    SavingsLacks(text, '1');
    SavingsWords(text);
    WordsAvoidRestaurant("owealth", "auto", "save", "transfer", "restaurant");
    WordsAvoidFuel("owealth", "auto", "save", "transfer", "fuel");
    WordsAvoidVat("owealth", "auto", "save", "transfer", "vat");
    WordsAvoidStore("owealth", "auto", "save", "transfer", "store");
    FoodAvoided(text);
    TransportAvoided(text);
    UtilitiesAvoided(text);
    BettingAvoided(text);
    FeesAvoided(text);
    ShoppingAvoided(text);
    AvoidsGroup(text, FOOD_KEYS, Food);
    AvoidsGroup(text, TRANSPORT_KEYS, Transport);
    AvoidsGroup(text, UTILITY_KEYS, Utilities);
    AvoidsGroup(text, BETTING_KEYS, Entertainment);
    AvoidsGroup(text, FEE_KEYS, Fees);
    AvoidsGroup(text, SHOPPING_KEYS, Shopping);
    var before := Group(FOOD_KEYS, Food);
    AvoidsAppend(text, before, Group(TRANSPORT_KEYS, Transport));
    before := before + Group(TRANSPORT_KEYS, Transport);
    AvoidsAppend(text, before, Group(UTILITY_KEYS, Utilities));
    before := before + Group(UTILITY_KEYS, Utilities);
    AvoidsAppend(text, before, Group(BETTING_KEYS, Entertainment));
    before := before + Group(BETTING_KEYS, Entertainment);
    AvoidsAppend(text, before, Group(FEE_KEYS, Fees));
    before := before + Group(FEE_KEYS, Fees);
    AvoidsAppend(text, before, Group(SHOPPING_KEYS, Shopping));
  }

  /** "owealth auto-save transfer" is 'Internal': no key before the
      Internal group occurs in it, and "owealth" does. */
  lemma SavingsIsInternal(text: string)
    requires text == "owealth auto-save transfer"
    ensures CategoryOf(text) == Internal
  {
    SavingsAvoidsEarlierKeys(text);
    var before := Group(FOOD_KEYS, Food) + Group(TRANSPORT_KEYS, Transport)
                  + Group(UTILITY_KEYS, Utilities) + Group(BETTING_KEYS, Entertainment)
                  + Group(FEE_KEYS, Fees) + Group(SHOPPING_KEYS, Shopping);
    var after := Group(INTERNAL_KEYS, Internal) + Group(TRANSFER_KEYS, Transfer);
    assert KEYWORDS == before + after;
    SkipAvoided(text, before, after);
    ContainsAt(text, "owealth", 0);
    assert after[0] == Keyword("owealth", Internal);
  }

  /** The keyword search of `autoCategorize`: a loop over the table that
      stops at the first key the text contains. */
  method FindCategory(text: string) returns (category: Category)
    ensures category == CategoryOf(text)
  {
    category := Uncategorized;
    var i := 0;
    while i < |KEYWORDS|
      invariant 0 <= i <= |KEYWORDS|
      invariant CategoryIn(text, KEYWORDS[i..]) == CategoryOf(text)
      invariant category == Uncategorized
    {
      if Contains(text, KEYWORDS[i].key) {
        category := KEYWORDS[i].category;
        break;
      }
      assert KEYWORDS[i..][1..] == KEYWORDS[i + 1..];
      i := i + 1;
    }
  }

  // ---------------------------------------------------------------------
  // Building the transaction records
  // ---------------------------------------------------------------------

  /** `item.receiver || item.description || 'Unknown'` */
  function ReceiverOf(item: RawTransaction): (r: string)
    ensures r != ""
    ensures item.receiver != "" ==> r == item.receiver
    ensures item.receiver == "" && item.description != "" ==> r == item.description
    ensures item.receiver == "" && item.description == "" ==> r == "Unknown"
  {
    if item.receiver != "" then item.receiver
    else if item.description != "" then item.description
    else "Unknown"
  }

  /** The lower-cased text the keywords are looked up in: the receiver
      chain, a space, and the description (`item.description || ''` is the
      description itself). */
  function ScanText(item: RawTransaction): string {
    Lower(ReceiverOf(item) + " " + item.description)
  }

  /** `txn-${index}-${stamp}` */
  function MakeId(index: nat, stamp: nat): string {
    "txn-" + NatToString(index) + "-" + NatToString(stamp)
  }

  /** Ids made for different positions differ, whatever the clock reads:
      the index part is the text between the first two dashes. */
  lemma IdsDiffer(i: nat, a: nat, j: nat, b: nat)
    requires i != j
    ensures MakeId(i, a) != MakeId(j, b)
  {
    if MakeId(i, a) == MakeId(j, b) {
      var si, sj := NatToString(i), NatToString(j);
      assert '-' !in si && '-' !in sj;
      assert MakeId(i, a)[4..] == si + "-" + NatToString(a);
      assert MakeId(j, b)[4..] == sj + "-" + NatToString(b);
      PrefixBeforeSeparator(si, NatToString(a), sj, NatToString(b), '-');
      NatToStringInjective(i, j);
    }
  }

  /** One output record: the input's date, description and amount
      (`Number(amount) || 0` leaves a real number as it is), the receiver
      chain, the first-match category, the positional id and a type that
      defaults to 'debit'. */
  function Categorize(item: RawTransaction, index: nat, stamp: nat): (t: Transaction)
    ensures t.Raw() == item.(receiver := ReceiverOf(item),
                             txnType := Some(if item.txnType.None? then Debit else item.txnType.value))
    ensures t.category == CategoryOf(ScanText(item))
    ensures t.id == MakeId(index, stamp)
  {
    Transaction(
      date := item.date,
      amount := item.amount,
      receiver := ReceiverOf(item),
      description := item.description,
      txnType := Some(if item.txnType.None? then Debit else item.txnType.value),
      id := MakeId(index, stamp),
      category := CategoryOf(ScanText(item)))
  }

  /** `autoCategorize(raw)`: one record per input, in order; `clock(i)` is
      the reading of `Date.now()` taken while record i is built. */
  function AutoCategorize(raw: seq<RawTransaction>, clock: nat -> nat): (r: seq<Transaction>)
    ensures |r| == |raw|
    ensures forall i :: 0 <= i < |raw| ==> r[i] == Categorize(raw[i], i, clock(i))
  {
    seq(|raw|, i requires 0 <= i < |raw| => Categorize(raw[i], i, clock(i)))
  }

  /** The ids of one batch are pairwise distinct. */
  lemma AutoCategorizeIdsDistinct(raw: seq<RawTransaction>, clock: nat -> nat)
    ensures forall i, j :: 0 <= i < j < |raw| ==>
              AutoCategorize(raw, clock)[i].id != AutoCategorize(raw, clock)[j].id
  {
    var r := AutoCategorize(raw, clock);
    forall i, j | 0 <= i < j < |raw| ensures r[i].id != r[j].id {
      IdsDiffer(i, clock(i), j, clock(j));
    }
  }

  /** Record i depends only on input i and the clock reading at i. */
  lemma AutoCategorizeIsPointwise(raw: seq<RawTransaction>, raw': seq<RawTransaction>,
                                  clock: nat -> nat, clock': nat -> nat, i: nat)
    requires i < |raw| && i < |raw'| && raw[i] == raw'[i] && clock(i) == clock'(i)
    ensures AutoCategorize(raw, clock)[i] == AutoCategorize(raw', clock')[i]
  {
  }

  /** No record of a batch is categorized as 'Salary', and every record has
      a type. */
  lemma AutoCategorizeNeverSalary(raw: seq<RawTransaction>, clock: nat -> nat)
    ensures forall t :: t in AutoCategorize(raw, clock) ==> t.category != Salary && t.txnType.Some?
  {
    forall i | 0 <= i < |raw| ensures AutoCategorize(raw, clock)[i].category != Salary {
      NeverSalary(ScanText(raw[i]));
    }
  }
}
