/**
 The business-card field classifier `extracted_text` of Script.py: the OCR
 lines of one card are sorted into eight buckets, the first line as the name,
 the second as the designation and every later line by a first-match-wins
 cascade of rules; each bucket is then rendered as the space-join of what it
 collected, or the sentinel "NA" when it collected nothing.
 */
module Classifier {
  import opened Strings

  /** The eight keys of the extracted dictionary. */
  datatype Field = Name | Designation | CompanyName | Contact | Email | Website | Address | Pincode

  /** The dictionary's keys, in the order the dictionary is created with them. */
  const Keys: seq<Field> := [Name, Designation, CompanyName, Contact, Email, Website, Address, Pincode]

  /** The position of each key in the dictionary. */
  function KeyIndex(f: Field): (k: nat)
    ensures k < |Keys| && Keys[k] == f
  {
    match f
    case Name => 0
    case Designation => 1
    case CompanyName => 2
    case Contact => 3
    case Email => 4
    case Website => 5
    case Address => 6
    case Pincode => 7
  }

  lemma KeysDistinct()
    ensures forall i, j :: 0 <= i < |Keys| && 0 <= j < |Keys| && i != j ==> Keys[i] != Keys[j]
  {
  }

  const AllFields: set<Field> := {Name, Designation, CompanyName, Contact, Email, Website, Address, Pincode}

  /** The buckets a line from the third on can go to, in the order their rules are tried. */
  const Cascade: seq<Field> := [Contact, Email, Website, Pincode, CompanyName, Address]

  /** The placeholder of a bucket that collected nothing. */
  const Sentinel: string := "NA"

  /** The five spellings of "www" the website rule looks for. */
  const WwwSpellings: seq<string> := ["WWW", "www", "Www", "wWw", "wwW"]

  /** The result of the classifier: each key mapped to a (one-element) list of strings. */
  type Card = map<Field, seq<string>>

  /** Where a line goes and what is stored for it. */
  datatype Placement = Placement(field: Field, value: string)

  // ---------------------------------------------------------------------------
  // The rule tests

  /**
   A phone number: a leading '+', or a '-' together with at least one digit and
   nothing but digits and dashes.
   */
  predicate IsContact(line: string) {
    StartsWith(line, "+") || (IsDigits(Without(line, {'-'})) && '-' in line)
  }

  predicate IsEmail(line: string) {
    '@' in line && Contains(line, ".com")
  }

  predicate IsWebsite(line: string) {
    Contains(line, "WWW") || Contains(line, "www") || Contains(line, "Www")
    || Contains(line, "wWw") || Contains(line, "wwW")
  }

  predicate IsPincode(line: string) {
    Contains(line, "Tamil Nadu") || Contains(line, "TamilNadu") || IsDigits(line)
  }

  /** `re.match(r'^[A-Za-z]', line)` */
  predicate IsCompanyName(line: string) {
    |line| > 0 && IsLetter(line[0])
  }

  /** `re.sub(r'[,;]', '', line)` */
  function StripAddress(line: string): (r: string)
    ensures ',' !in r && ';' !in r
  {
    WithoutChars(line, {',', ';'});
    Without(line, {',', ';'})
  }

  // ---------------------------------------------------------------------------
  // The rules as a table

  /** Whether the rule of bucket `f` fires on `line`; the address rule always does. */
  predicate Fires(f: Field, line: string) {
    match f
    case Contact => IsContact(line)
    case Email => IsEmail(line)
    case Website => IsWebsite(line)
    case Pincode => IsPincode(line)
    case CompanyName => IsCompanyName(line)
    case Address => true
    case Name => false
    case Designation => false
  }

  /** What bucket `f` stores for `line`. */
  function Stored(f: Field, line: string): string {
    match f
    case Website => Lower(line)
    case Address => StripAddress(line)
    case _ => line
  }

  /** The first-match-wins cascade applied to one line (the `if`/`elif` chain). */
  function Classify(line: string): (p: Placement)
    ensures p.field in Cascade && p.field != Name && p.field != Designation
    ensures p.field == Website ==> forall i :: 0 <= i < |p.value| ==> !IsUpper(p.value[i])
    ensures p.field == Address ==> ',' !in p.value && ';' !in p.value
    ensures p.field != Website && p.field != Address ==> p.value == line
  {
    if IsContact(line) then Placement(Contact, line)
    else if IsEmail(line) then Placement(Email, line)
    else if IsWebsite(line) then Placement(Website, Lower(line))
    else if IsPincode(line) then Placement(Pincode, line)
    else if IsCompanyName(line) then Placement(CompanyName, line)
    else Placement(Address, StripAddress(line))
  }

  /**
   A line goes to the bucket of rule k exactly when rule k fires and no rule
   before it does, and that bucket stores the rule's transform of the line.
   */
  lemma ClassifyIsFirstMatch(line: string, k: int)
    requires 0 <= k < |Cascade|
    ensures Classify(line).field == Cascade[k] <==>
              Fires(Cascade[k], line) && forall j :: 0 <= j < k ==> !Fires(Cascade[j], line)
    ensures Classify(line).field == Cascade[k] ==> Classify(line).value == Stored(Cascade[k], line)
  {
    assert Cascade[0] == Contact && Cascade[1] == Email && Cascade[2] == Website;
    assert Cascade[3] == Pincode && Cascade[4] == CompanyName && Cascade[5] == Address;
  }

  // ---------------------------------------------------------------------------
  // Each rule in plain terms

  /**
   A line is a contact exactly when it starts with '+', or it holds a '-', at
   least one digit and nothing but digits and dashes.
   */
  lemma ContactRule(line: string)
    ensures Classify(line).field == Contact <==>
              (|line| > 0 && line[0] == '+')
              || ('-' in line && (exists c :: c in line && IsDigit(c))
                  && forall c :: c in line ==> c == '-' || IsDigit(c))
    ensures Classify(line).field == Contact ==> Classify(line).value == line
  {
    DigitsWithout(line, '-');
    assert StartsWith(line, "+") <==> |line| > 0 && line[0] == '+' by {
      if |line| > 0 { assert line[..1] == [line[0]]; }
    }
  }

  /** A line made of digits only is never a contact: it is a pincode, kept as it is. */
  lemma DigitLineIsPincode(line: string)
    requires IsDigits(line)
    ensures Classify(line) == Placement(Pincode, line)
  {
    forall c | c in line ensures IsDigit(c) {
      var i :| 0 <= i < |line| && line[i] == c;
    }
    assert line[..1] == [line[0]];
    MissingCharNotContained(line, "WWW", 0);
    MissingCharNotContained(line, "www", 0);
    MissingCharNotContained(line, "Www", 0);
    MissingCharNotContained(line, "wWw", 0);
    MissingCharNotContained(line, "wwW", 0);
  }

  /** A line that is not a contact and holds '@' and an occurrence of ".com" is an email. */
  lemma EmailRule(line: string)
    ensures Classify(line).field == Email <==>
              !IsContact(line) && '@' in line && exists i :: OccursAt(line, ".com", i)
    ensures Classify(line).field == Email ==> Classify(line).value == line
  {
    ContainsIffOccurs(line, ".com");
  }

  /**
   A line that neither rule before claims is a website exactly when one of the
   five spellings occurs in it; it is stored lower-cased.
   */
  lemma WebsiteRule(line: string)
    ensures Classify(line).field == Website <==>
              !IsContact(line) && !IsEmail(line)
              && exists k, i :: 0 <= k < |WwwSpellings| && OccursAt(line, WwwSpellings[k], i)
    ensures Classify(line).field == Website ==> Classify(line).value == Lower(line)
  {
    assert WwwSpellings == ["WWW", "www", "Www", "wWw", "wwW"];
    forall k | 0 <= k < |WwwSpellings| {
      ContainsIffOccurs(line, WwwSpellings[k]);
    }
    if IsWebsite(line) {
      var k := if Contains(line, "WWW") then 0 else if Contains(line, "www") then 1
               else if Contains(line, "Www") then 2 else if Contains(line, "wWw") then 3 else 4;
      assert Contains(line, WwwSpellings[k]);
      var i :| OccursAt(line, WwwSpellings[k], i);
    }
  }

  /**
   A line no earlier rule claims is a pincode exactly when "Tamil Nadu" or
   "TamilNadu" occurs in it or it is made of digits; it is kept as it is.
   */
  lemma PincodeRule(line: string)
    ensures Classify(line).field == Pincode <==>
              !IsContact(line) && !IsEmail(line) && !IsWebsite(line)
              && ((exists i :: OccursAt(line, "Tamil Nadu", i))
                  || (exists i :: OccursAt(line, "TamilNadu", i))
                  || IsDigits(line))
    ensures Classify(line).field == Pincode ==> Classify(line).value == line
  {
    ContainsIffOccurs(line, "Tamil Nadu");
    ContainsIffOccurs(line, "TamilNadu");
  }

  /**
   A line no earlier rule claims is a company name, verbatim, when it starts
   with an ASCII letter, and otherwise (the empty line included) an address
   with its commas and semicolons removed and every other character kept.
   */
  lemma CompanyOrAddressRule(line: string)
    requires !IsContact(line) && !IsEmail(line) && !IsWebsite(line) && !IsPincode(line)
    ensures |line| > 0 && IsLetter(line[0]) ==> Classify(line) == Placement(CompanyName, line)
    ensures !(|line| > 0 && IsLetter(line[0])) ==> Classify(line).field == Address
    ensures Classify(line).field == Address ==>
              var v := Classify(line).value;
              ',' !in v && ';' !in v
              && forall c :: c != ',' && c != ';' ==> multiset(v)[c] == multiset(line)[c]
  {
    WithoutKeepsOthers(line, {',', ';'});
  }

  // ---------------------------------------------------------------------------
  // Buckets

  /** The placement of every line, in input order. */
  function ClassifyAll(lines: seq<string>): seq<Placement> {
    seq(|lines|, j requires 0 <= j < |lines| => Classify(lines[j]))
  }

  /** The values that the placements `ps` put in bucket `f`, in encounter order. */
  function Gather(ps: seq<Placement>, f: Field): (b: seq<string>)
    ensures |b| <= |ps|
  {
    if ps == [] then []
    else
      var p := ps[|ps| - 1];
      Gather(ps[..|ps| - 1], f) + (if p.field == f then [p.value] else [])
  }

  /** The values collected in bucket `f` from `lines`. */
  function Collected(lines: seq<string>, f: Field): seq<string> {
    Gather(ClassifyAll(lines), f)
  }

  lemma GatherAppendOne(ps: seq<Placement>, p: Placement)
    ensures forall f :: Gather(ps + [p], f) == Gather(ps, f) + (if p.field == f then [p.value] else [])
  {
    assert (ps + [p])[..|ps|] == ps;
  }

  /** Gathering from a run of placements is gathering from each part, in order. */
  lemma {:induction false} GatherAppend(a: seq<Placement>, b: seq<Placement>, f: Field)
    ensures Gather(a + b, f) == Gather(a, f) + Gather(b, f)
    decreases |b|
  {
    if b == [] {
      assert a + b == a;
    } else {
      assert (a + b)[..|a + b| - 1] == a + b[..|b| - 1];
      GatherAppend(a, b[..|b| - 1], f);
    }
  }

  lemma ClassifyAllAppend(a: seq<string>, b: seq<string>)
    ensures ClassifyAll(a + b) == ClassifyAll(a) + ClassifyAll(b)
  {
  }

  /**
   Line j lands in its own bucket, between what the lines before it and the
   lines after it put there, and adds nothing to any other bucket.
   */
  lemma LineLandsInOneBucket(lines: seq<string>, j: int, f: Field)
    requires 0 <= j < |lines|
    ensures var p := Classify(lines[j]);
            Collected(lines, f) == Collected(lines[..j], f)
                                   + (if p.field == f then [p.value] else [])
                                   + Collected(lines[j + 1..], f)
  {
    var a, x, b := lines[..j], lines[j], lines[j + 1..];
    var p := Classify(x);
    assert lines == a + [x] + b;
    ClassifyAllAppend(a + [x], b);
    ClassifyAllAppend(a, [x]);
    assert ClassifyAll([x]) == [p];
    GatherAppend(ClassifyAll(a) + [p], ClassifyAll(b), f);
    GatherAppendOne(ClassifyAll(a), p);
  }

  /** A bucket stays empty exactly when no placement is into it. */
  lemma {:induction false} GatherEmptyIff(ps: seq<Placement>, f: Field)
    ensures Gather(ps, f) == [] <==> forall j :: 0 <= j < |ps| ==> ps[j].field != f
  {
    if ps != [] {
      var init := ps[..|ps| - 1];
      GatherEmptyIff(init, f);
      assert forall j :: 0 <= j < |init| ==> init[j] == ps[j];
    }
  }

  /** A placement that no other shares its bucket with is the whole of that bucket. */
  lemma {:induction false} GatherSingle(ps: seq<Placement>, j: int)
    requires 0 <= j < |ps|
    requires forall k :: 0 <= k < |ps| && k != j ==> ps[k].field != ps[j].field
    ensures Gather(ps, ps[j].field) == [ps[j].value]
  {
    var init := ps[..|ps| - 1];
    assert forall k :: 0 <= k < |init| ==> init[k] == ps[k];
    if j == |ps| - 1 {
      GatherEmptyIff(init, ps[j].field);
    } else {
      GatherSingle(init, j);
    }
  }

  /** Every gathered value is what some placement into that bucket stored. */
  lemma {:induction false} GatherFrom(ps: seq<Placement>, f: Field, v: string)
    requires v in Gather(ps, f)
    ensures exists j :: 0 <= j < |ps| && ps[j] == Placement(f, v)
  {
    var init := ps[..|ps| - 1];
    if v in Gather(init, f) {
      GatherFrom(init, f, v);
      var j :| 0 <= j < |init| && init[j] == Placement(f, v);
      assert ps[j] == init[j];
    } else {
      assert ps[|ps| - 1] == Placement(f, v);
    }
  }

  /** Every collected value is what some line classified into that bucket stored. */
  lemma CollectedFromLines(lines: seq<string>, f: Field, v: string)
    requires v in Collected(lines, f)
    ensures exists j :: 0 <= j < |lines| && Classify(lines[j]) == Placement(f, v)
  {
    GatherFrom(ClassifyAll(lines), f, v);
  }

  /** A bucket stays empty exactly when no line is classified into it. */
  lemma CollectedEmptyIff(lines: seq<string>, f: Field)
    ensures Collected(lines, f) == [] <==> forall k :: 0 <= k < |lines| ==> Classify(lines[k]).field != f
  {
    var ps := ClassifyAll(lines);
    GatherEmptyIff(ps, f);
    assert forall k :: 0 <= k < |lines| ==> ps[k] == Classify(lines[k]);
  }

  /** The same, for the lines of `texts` from `lo` up to `hi`. */
  lemma CollectedSliceEmptyIff(texts: seq<string>, lo: int, hi: int, f: Field)
    requires 0 <= lo <= hi <= |texts|
    ensures Collected(texts[lo..hi], f) == [] <==> forall k :: lo <= k < hi ==> Classify(texts[k]).field != f
  {
    var lines := texts[lo..hi];
    CollectedEmptyIff(lines, f);
    if Collected(lines, f) == [] {
      forall k | lo <= k < hi ensures Classify(texts[k]).field != f {
        assert texts[k] == lines[k - lo];
      }
    } else {
      var k :| 0 <= k < |lines| && Classify(lines[k]).field == f;
      assert lines[k] == texts[lo + k];
    }
  }

  /** The six buckets together hold one value per placement, and name and designation none. */
  lemma {:induction false} GatherPartition(ps: seq<Placement>)
    requires forall j :: 0 <= j < |ps| ==> ps[j].field != Name && ps[j].field != Designation
    ensures Gather(ps, Name) == [] && Gather(ps, Designation) == []
    ensures |Gather(ps, Contact)| + |Gather(ps, Email)| + |Gather(ps, Website)|
            + |Gather(ps, Pincode)| + |Gather(ps, CompanyName)| + |Gather(ps, Address)|
            == |ps|
  {
    if ps != [] {
      var init, last := ps[..|ps| - 1], ps[|ps| - 1];
      assert forall j :: 0 <= j < |init| ==> init[j] == ps[j];
      GatherPartition(init);
      assert Gather(ps, Contact) == Gather(init, Contact) + (if last.field == Contact then [last.value] else []);
      assert Gather(ps, Email) == Gather(init, Email) + (if last.field == Email then [last.value] else []);
      assert Gather(ps, Website) == Gather(init, Website) + (if last.field == Website then [last.value] else []);
      assert Gather(ps, Pincode) == Gather(init, Pincode) + (if last.field == Pincode then [last.value] else []);
      assert Gather(ps, CompanyName) == Gather(init, CompanyName) + (if last.field == CompanyName then [last.value] else []);
      assert Gather(ps, Address) == Gather(init, Address) + (if last.field == Address then [last.value] else []);
    }
  }

  /** Every line from the third on goes to exactly one of the six buckets. */
  lemma BucketsPartitionLines(lines: seq<string>)
    ensures Collected(lines, Name) == [] && Collected(lines, Designation) == []
    ensures |Collected(lines, Contact)| + |Collected(lines, Email)| + |Collected(lines, Website)|
            + |Collected(lines, Pincode)| + |Collected(lines, CompanyName)| + |Collected(lines, Address)|
            == |lines|
  {
    GatherPartition(ClassifyAll(lines));
  }

  // ---------------------------------------------------------------------------
  // The dictionary

  /** What bucket `f` holds after the accumulation loop. */
  function Bucket(texts: seq<string>, f: Field): seq<string>
    requires |texts| >= 2
  {
    match f
    case Name => [texts[0]]
    case Designation => [texts[1]]
    case _ => Collected(texts[2..], f)
  }

  /** One more line adds its value to its own bucket and leaves the others alone. */
  lemma CollectedStep(texts: seq<string>, i: int)
    requires 2 <= i < |texts|
    ensures var p := Classify(texts[i]);
            forall f :: Collected(texts[2..i + 1], f) == Collected(texts[2..i], f) + (if p.field == f then [p.value] else [])
  {
    var lines := texts[2..i];
    assert texts[2..i + 1] == lines + [texts[i]];
    ClassifyAllAppend(lines, [texts[i]]);
    assert ClassifyAll([texts[i]]) == [Classify(texts[i])];
    GatherAppendOne(ClassifyAll(lines), Classify(texts[i]));
  }

  /** The finalisation of one bucket: its space-join, or the sentinel when empty. */
  function Render(bucket: seq<string>): (r: string)
    ensures bucket == [] ==> r == Sentinel
    ensures |bucket| == 1 ==> r == bucket[0]
  {
    if |bucket| > 0 then Join(bucket) else Sentinel
  }

  /** The dictionary `extracted_text` returns for `texts`. */
  function ExtractedCard(texts: seq<string>): (card: Card)
    requires |texts| >= 2
    ensures card.Keys == AllFields
  {
    map f | f in AllFields :: [Render(Bucket(texts, f))]
  }

  /** The dictionary the accumulation loop assembles holds every bucket. */
  lemma AssembledBuckets(texts: seq<string>, buckets: Card)
    requires |texts| >= 2
    requires var lines := texts[2..];
             buckets == map[Name := [texts[0]], Designation := [texts[1]],
                            CompanyName := Collected(lines, CompanyName), Contact := Collected(lines, Contact),
                            Email := Collected(lines, Email), Website := Collected(lines, Website),
                            Address := Collected(lines, Address), Pincode := Collected(lines, Pincode)]
    ensures buckets.Keys == AllFields
    ensures forall f :: f in buckets ==> buckets[f] == Bucket(texts, f)
  {
  }

  /** Each key of the card holds the rendering of its bucket. */
  lemma CardEntry(texts: seq<string>, f: Field)
    requires |texts| >= 2
    ensures ExtractedCard(texts)[f] == [Render(Bucket(texts, f))]
  {
  }

  /** Any key but the name and the designation holds what the later lines put there. */
  lemma CascadeBucket(texts: seq<string>, f: Field)
    requires |texts| >= 2 && f != Name && f != Designation
    ensures Bucket(texts, f) == Collected(texts[2..], f)
  {
  }

  /** A dictionary holding the rendering of every bucket on every key is the extracted card. */
  lemma CardByKeys(texts: seq<string>, card: Card)
    requires |texts| >= 2 && card.Keys == AllFields
    requires forall f :: f in card ==> card[f] == [Render(Bucket(texts, f))]
    ensures card == ExtractedCard(texts)
  {
  }

  /** Every one of the eight keys is defined and holds exactly one string. */
  lemma CardShape(texts: seq<string>)
    requires |texts| >= 2
    ensures ExtractedCard(texts).Keys == AllFields
    ensures forall f :: f in Keys ==> f in ExtractedCard(texts) && |ExtractedCard(texts)[f]| == 1
  {
  }

  /** The first two lines are the name and the designation, verbatim, whatever they look like. */
  lemma NameAndDesignationVerbatim(texts: seq<string>)
    requires |texts| >= 2
    ensures ExtractedCard(texts)[Name] == [texts[0]]
    ensures ExtractedCard(texts)[Designation] == [texts[1]]
  {
  }

  /**
   Any other key holds the sentinel when no line from the third on was
   classified into it, and otherwise the space-join of the values stored for
   those lines, in input order.
   */
  lemma JoinedOrSentinel(texts: seq<string>, f: Field)
    requires |texts| >= 2 && f in Cascade
    ensures ExtractedCard(texts)[f] ==
              if exists j :: 2 <= j < |texts| && Classify(texts[j]).field == f
              then [Join(Collected(texts[2..], f))]
              else [Sentinel]
  {
    assert texts[2..] == texts[2..|texts|];
    CollectedSliceEmptyIff(texts, 2, |texts|, f);
    CardEntry(texts, f);
    CascadeBucket(texts, f);
  }

  /**
   A line that no other line from the third on shares its bucket with is the
   whole content of that bucket.
   */
  lemma AloneInBucket(texts: seq<string>, j: int)
    requires 2 <= j < |texts|
    requires forall k :: 2 <= k < |texts| && k != j ==> Classify(texts[k]).field != Classify(texts[j]).field
    ensures ExtractedCard(texts)[Classify(texts[j]).field] == [Classify(texts[j]).value]
  {
    var lines := texts[2..];
    var ps := ClassifyAll(lines);
    forall k | 0 <= k < |ps| && k != j - 2 ensures ps[k].field != ps[j - 2].field {
      assert lines[k] == texts[k + 2];
    }
    GatherSingle(ps, j - 2);
    assert ps[j - 2] == Classify(lines[j - 2]);
    CardEntry(texts, ps[j - 2].field);
    CascadeBucket(texts, ps[j - 2].field);
  }

  /** With exactly two lines, every key but the name and the designation is the sentinel. */
  lemma TwoLinesLeaveSentinels(a: string, b: string)
    ensures var card := ExtractedCard([a, b]);
            card[Name] == [a] && card[Designation] == [b]
            && forall f :: f in Cascade ==> card[f] == [Sentinel]
  {
    assert [a, b][2..] == [];
  }

  /** Every value collected for the website bucket is free of upper-case letters. */
  lemma CollectedWebsitesAreLowerCase(lines: seq<string>, v: string, c: char)
    requires v in Collected(lines, Website) && c in v
    ensures !IsUpper(c)
  {
    CollectedFromLines(lines, Website, v);
    var j :| 0 <= j < |lines| && Classify(lines[j]) == Placement(Website, v);
    var i :| 0 <= i < |v| && v[i] == c;
  }

  /** The stored website is the sentinel or contains no upper-case letter. */
  lemma WebsiteIsLowerCase(texts: seq<string>)
    requires |texts| >= 2
    ensures var w := ExtractedCard(texts)[Website][0];
            w == Sentinel || forall c :: c in w ==> !IsUpper(c)
  {
    var bucket := Collected(texts[2..], Website);
    assert ExtractedCard(texts)[Website] == [Render(bucket)];
    if bucket != [] {
      forall c | c in Join(bucket) ensures !IsUpper(c) {
        JoinChars(bucket, c);
        if c != ' ' {
          var k :| 0 <= k < |bucket| && c in bucket[k];
          CollectedWebsitesAreLowerCase(texts[2..], bucket[k], c);
        }
      }
    }
  }

  /** The stored address contains no comma and no semicolon. */
  lemma AddressHasNoSeparators(texts: seq<string>)
    requires |texts| >= 2
    ensures ',' !in ExtractedCard(texts)[Address][0]
    ensures ';' !in ExtractedCard(texts)[Address][0]
  {
    var bucket := Collected(texts[2..], Address);
    forall c | c in ExtractedCard(texts)[Address][0] ensures c != ',' && c != ';' {
      if bucket != [] {
        JoinChars(bucket, c);
        if c != ' ' {
          var k :| 0 <= k < |bucket| && c in bucket[k];
          CollectedFromLines(texts[2..], Address, bucket[k]);
          var j :| 0 <= j < |texts[2..]| && Classify(texts[2..][j]) == Placement(Address, bucket[k]);
        }
      }
    }
  }

  /** Every key but the name and the designation holds the rendering of what the later lines put there. */
  lemma LaterKey(texts: seq<string>, f: Field)
    requires |texts| >= 2 && f != Name && f != Designation
    ensures ExtractedCard(texts)[f] == [Render(Collected(texts[2..], f))]
  {
    CardEntry(texts, f);
    CascadeBucket(texts, f);
  }

  /**
   The card's values in the order of its keys: the row the card becomes when it
   is turned into a table and stored, where values bind to columns by position.
   */
  function Row(card: Card): (row: seq<string>)
    requires forall k :: 0 <= k < |Keys| ==> Keys[k] in card && |card[Keys[k]]| > 0
    ensures |row| == |Keys|
  {
    seq(|Keys|, k requires 0 <= k < |Keys| => card[Keys[k]][0])
  }

  /**
   The row of the extracted card: the name, the designation, then the rendering
   of each later bucket in key order (company name, contact, email, website,
   address, pincode).
   */
  lemma CardRow(texts: seq<string>)
    requires |texts| >= 2
    ensures forall k :: 0 <= k < |Keys| ==> Keys[k] in ExtractedCard(texts) && |ExtractedCard(texts)[Keys[k]]| > 0
    ensures var lines := texts[2..];
            Row(ExtractedCard(texts))
            == [texts[0], texts[1], Render(Collected(lines, CompanyName)), Render(Collected(lines, Contact)),
                Render(Collected(lines, Email)), Render(Collected(lines, Website)),
                Render(Collected(lines, Address)), Render(Collected(lines, Pincode))]
  {
    var card := ExtractedCard(texts);
    CardShape(texts);
    NameAndDesignationVerbatim(texts);
    LaterKey(texts, CompanyName);
    LaterKey(texts, Contact);
    LaterKey(texts, Email);
    LaterKey(texts, Website);
    LaterKey(texts, Address);
    LaterKey(texts, Pincode);
    var row := Row(card);
    assert row[0] == card[Name][0] && row[1] == card[Designation][0] && row[2] == card[CompanyName][0];
    assert row[3] == card[Contact][0] && row[4] == card[Email][0] && row[5] == card[Website][0];
    assert row[6] == card[Address][0] && row[7] == card[Pincode][0];
  }

  // ---------------------------------------------------------------------------
  // The classifier as the program runs it

  /**
   `extracted_text`: fill one accumulator per bucket line by line through the
   rule cascade, then hand the dictionary of buckets to the finalisation.
   */
  method ExtractedText(texts: seq<string>) returns (extracted: Card)
    requires |texts| >= 2
    ensures extracted == ExtractedCard(texts)
  {
    var companyName, contact, email, website, address, pincode := [], [], [], [], [], [];
    for i := 2 to |texts|
      invariant companyName == Collected(texts[2..i], CompanyName)
      invariant contact == Collected(texts[2..i], Contact)
      invariant email == Collected(texts[2..i], Email)
      invariant website == Collected(texts[2..i], Website)
      invariant address == Collected(texts[2..i], Address)
      invariant pincode == Collected(texts[2..i], Pincode)
    {
      var line := texts[i];
      CollectedStep(texts, i);
      if IsContact(line) {
        assert Classify(line) == Placement(Contact, line);
        contact := contact + [line];
      } else if IsEmail(line) {
        assert Classify(line) == Placement(Email, line);
        email := email + [line];
      } else if IsWebsite(line) {
        var small := Lower(line);
        assert Classify(line) == Placement(Website, small);
        website := website + [small];
      } else if IsPincode(line) {
        assert Classify(line) == Placement(Pincode, line);
        pincode := pincode + [line];
      } else if IsCompanyName(line) {
        assert Classify(line) == Placement(CompanyName, line);
        companyName := companyName + [line];
      } else {
        var removeColon := StripAddress(line);
        assert Classify(line) == Placement(Address, removeColon);
        address := address + [removeColon];
      }
    }
    assert texts[2..|texts|] == texts[2..];
    var buckets := map[Name := [texts[0]], Designation := [texts[1]], CompanyName := companyName,
                       Contact := contact, Email := email, Website := website, Address := address,
                       Pincode := pincode];
    extracted := Finalise(buckets);
    AssembledBuckets(texts, buckets);
    CardByKeys(texts, extracted);
  }

  /**
   The second pass: every key of the dictionary is overwritten with a
   one-element list, the space-join of its bucket or the sentinel.
   */
  method Finalise(buckets: Card) returns (extracted: Card)
    requires buckets.Keys == AllFields
    ensures extracted.Keys == buckets.Keys
    ensures forall f :: f in buckets ==> extracted[f] == [Render(buckets[f])]
  {
    KeysDistinct();
    extracted := buckets;
    for k := 0 to |Keys|
      invariant extracted.Keys == AllFields
      invariant forall j :: 0 <= j < k ==> extracted[Keys[j]] == [Render(buckets[Keys[j]])]
      invariant forall j :: k <= j < |Keys| ==> extracted[Keys[j]] == buckets[Keys[j]]
    {
      var key := Keys[k];
      var value := extracted[key];
      if |value| > 0 {
        var concatenate := Join(value);
        extracted := extracted[key := [concatenate]];
      } else {
        extracted := extracted[key := [Sentinel]];
      }
    }
    forall f | f in buckets ensures extracted[f] == [Render(buckets[f])] {
      assert f == Keys[KeyIndex(f)];
    }
  }

  // ---------------------------------------------------------------------------
  // Worked examples

  /**
   A line that starts with a digit, is not all digits, and holds none of the
   characters the earlier rules look for is an address.
   */
  lemma DigitLedLineIsAddress(line: string, i: int)
    requires |line| > 0 && IsDigit(line[0]) && 0 <= i < |line| && !IsDigit(line[i])
    requires '-' !in line && '@' !in line && 'W' !in line && 'w' !in line && 'T' !in line
    ensures Classify(line) == Placement(Address, StripAddress(line))
  {
    assert line[..1] == [line[0]];
    MissingCharNotContained(line, "WWW", 0);
    MissingCharNotContained(line, "www", 0);
    MissingCharNotContained(line, "Www", 0);
    MissingCharNotContained(line, "wWw", 0);
    MissingCharNotContained(line, "wwW", 0);
    MissingCharNotContained(line, "Tamil Nadu", 0);
    MissingCharNotContained(line, "TamilNadu", 0);
  }

  /** Removing the separators around three separator-free pieces leaves the pieces, in order. */
  lemma StripBetween(a: string, x: char, b: string, y: char, c: string)
    requires x in {',', ';'} && y in {',', ';'}
    requires ',' !in a && ';' !in a && ',' !in b && ';' !in b && ',' !in c && ';' !in c
    ensures StripAddress(a + [x] + b + [y] + c) == a + b + c
  {
    var cs := {',', ';'};
    assert a + [x] + b + [y] + c == a + [x] + (b + [y] + c);
    WithoutSkips(a, x, b + [y] + c, cs);
    WithoutSkips(b, y, c, cs);
    WithoutIsIdentity(a, cs);
    WithoutIsIdentity(b, cs);
    WithoutIsIdentity(c, cs);
  }

  /** None of the characters the separators or the earlier rules look for. */
  predicate PlainText(s: string) {
    ',' !in s && ';' !in s && '-' !in s && '@' !in s && 'W' !in s && 'w' !in s && 'T' !in s
  }

  /**
   A digit-led line of plain pieces joined by commas or semicolons is an
   address, stored as the pieces without the separators.
   */
  lemma SeparatedAddress(a: string, x: char, b: string, y: char, c: string)
    requires x in {',', ';'} && y in {',', ';'}
    requires |a| > 0 && IsDigit(a[0]) && PlainText(a) && PlainText(b) && PlainText(c)
    ensures Classify(a + [x] + b + [y] + c) == Placement(Address, a + b + c)
  {
    var line := a + [x] + b + [y] + c;
    StripBetween(a, x, b, y, c);
    assert line[0] == a[0] && line[|a|] == x;
    DigitLedLineIsAddress(line, |a|);
  }

  /**
   A line that starts with "WwW" and has no further 'w' or 'W' matches none of
   the five spellings; it starts with a letter, so without an '@' or a 'T' it
   is taken for a company name.
   */
  lemma LeadingMixedCaseWww(rest: string)
    requires '@' !in rest && 'w' !in rest && 'W' !in rest && 'T' !in rest
    ensures Classify("WwW" + rest) == Placement(CompanyName, "WwW" + rest)
  {
    var line := "WwW" + rest;
    assert line[..1] == "W";
    assert line[0] == 'W' && !IsDigit(line[0]);
    assert line[0] in Without(line, {'-'});
    assert '@' !in line;
    assert 'T' !in line;
    MissingCharNotContained(line, "Tamil Nadu", 0);
    MissingCharNotContained(line, "TamilNadu", 0);
    forall sub | sub in WwwSpellings ensures !Contains(line, sub) {
      ContainedInPrefix("WwW", rest, sub);
      ContainsSameLength("WwW", sub);
    }
    assert WwwSpellings == ["WWW", "www", "Www", "wWw", "wwW"];
  }

}
