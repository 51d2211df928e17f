# Business-card field classifier

This project models `extracted_text`, the heart of the Bizcard application. The function takes the lines that OCR read off one business card and sorts them into the eight fields of a card:

```
NAME, DESIGNATION, COMPANY_NAME, CONTACT, EMAIL, WEBSITE, ADDRESS, PINCODE
```

The first line is the name and the second is the designation. Every later line goes to the bucket of the first rule in this list that fires:

1. contact: a leading `+`, or a `-` together with at least one digit and nothing but digits and dashes;
2. email: an `@` and `.com`;
3. website: one of five spellings of "www", stored lower-cased;
4. pincode: `Tamil Nadu`, `TamilNadu`, or a line made only of digits;
5. company name: a first character that is an ASCII letter;
6. address: every other line, with its commas and semicolons removed.

A second pass replaces each bucket with a one-element list. That element is the bucket's values joined with single spaces, or the sentinel `"NA"` when the bucket is empty.

Three modules make up the project:

- `Strings` (`strings.dfy`) defines the string operations the classifier relies on, over ASCII text:
  - prefix and substring tests;
  - the all-digits test;
  - character removal;
  - lower-casing;
  - joining with a single space.

  Each operation comes with lemmas that pin down its meaning.
- `CardExamples` (`card_examples.dfy`) applies the rules to concrete lines.
- `Classifier` (`classifier.dfy`) contains five parts:
  - the rule tests;
  - the cascade `Classify`;
  - the buckets as functions of the input lines (`Collected`, `Bucket`);
  - the resulting dictionary `ExtractedCard`;
  - the imperative classifier `ExtractedText`, which loops over the lines with one accumulator per bucket and then runs `Finalise`, the second pass.

`ExtractedText` is proved to return exactly `ExtractedCard(texts)`. The lemmas about `ExtractedCard` state what the function promises:

- the first two lines are kept verbatim;
- every key holds exactly one string;
- each later line lands in exactly one bucket;
- buckets keep input order;
- a bucket holds its space-join or the sentinel;
- each rule's exact firing condition, stated as an if-and-only-if.

The input is a Dafny sequence, a value, so the model cannot change it. The classifier is a function of its input alone, so it is deterministic.

## Model

| member | source | states |
|---|---|---|
| Classifier.ExtractedText | Script.py:35-66 | The dictionary returned for `texts` (at least two lines) equals `ExtractedCard(texts)`: the first loop fills one accumulator per bucket through the rule cascade, and the second pass renders each bucket. |
| Classifier.Finalise | Script.py:58-64 | Keeps the eight keys. Replaces every bucket with the one-element list of its space-join, or `["NA"]` when the bucket is empty. |
| Classifier.Classify | Script.py:42-56 | A later line always goes to one of the six cascade buckets, never to the name or the designation. A website value has no upper-case letter. An address value has no comma or semicolon. Every other bucket stores the line verbatim. |
| Classifier.ClassifyIsFirstMatch | Script.py:43-56 | A line goes to the bucket of rule k exactly when rule k fires and no earlier rule fires. That bucket stores the rule's transform of the line. |
| Classifier.ContactRule | Script.py:43-44 | A line is a contact exactly when it starts with `+`, or holds a `-`, at least one digit, and only digits and dashes. It is stored verbatim. |
| Classifier.DigitLineIsPincode | Script.py:43-51 | A line made only of digits is never a contact: it has no `-`. It is a pincode, stored verbatim. |
| Classifier.EmailRule | Script.py:45-46 | A line is an email exactly when it is not a contact and holds an `@` and an occurrence of `.com`. It is stored verbatim. |
| Classifier.WebsiteRule | Script.py:47-49 | A line is a website exactly when it is neither a contact nor an email and one of the five spellings `WWW`, `www`, `Www`, `wWw`, `wwW` occurs in it. The stored value is the lower-cased line. |
| Classifier.PincodeRule | Script.py:50-51 | A line no earlier rule claims is a pincode exactly when `Tamil Nadu` or `TamilNadu` occurs in it, or it is a non-empty all-digit string. It is stored verbatim. |
| Classifier.CompanyOrAddressRule | Script.py:52-56 | Among lines no earlier rule claims: a line starting with an ASCII letter is a company name, stored verbatim. Any other line, the empty line included, is an address. An address value has no comma or semicolon and keeps every other character exactly as often as the line has it. |
| Classifier.IsContact | Script.py:43 | The test `line.startswith("+") or (line.replace("-", "").isdigit() and '-' in line)`, built from `StartsWith`, `Without` and `IsDigits`. `Classifier.ContactRule` characterises it character by character. |
| Classifier.IsEmail | Script.py:45 | The test `"@" in line and ".com" in line`. `Classifier.EmailRule` restates it with `.com` occurring at some position. |
| Classifier.IsWebsite | Script.py:47 | The test that one of `WWW`, `www`, `Www`, `wWw`, `wwW` is a substring of the line. `Classifier.WebsiteRule` restates it over the five spellings. |
| Classifier.IsPincode | Script.py:50 | The test `"Tamil Nadu" in line or "TamilNadu" in line or line.isdigit()`. `Classifier.PincodeRule` restates it with occurrences. |
| Classifier.IsCompanyName | Script.py:52 | The test `re.match(r'^[A-Za-z]', line)`: the line is non-empty and its first character is an ASCII letter. `Classifier.CompanyOrAddressRule` uses it. |
| Classifier.Fires | Script.py:43-56 | The rule of each bucket as a table, in cascade order; the address rule (the final `else`) always fires. `Classifier.ClassifyIsFirstMatch` states first-match-wins over it. |
| Classifier.Stored | Script.py:44-56 | What each bucket appends for a line: `lower()` of it for the website, the separator-free line for the address, the line itself otherwise. `Classifier.ClassifyIsFirstMatch` ties it to `Classify`. |
| Classifier.StripAddress | Script.py:55 | The address value contains no comma and no semicolon. |
| Classifier.Collected | Script.py:42-56 | The list accumulated under one key by the first loop over `texts[2:]`: the stored values of the lines classified into it, in input order. `Classifier.LineLandsInOneBucket`, `Classifier.CollectedEmptyIff` and `Classifier.CollectedFromLines` characterise it. |
| Classifier.Bucket | Script.py:36-56 | The list under each key when the first loop ends: `[texts[0]]` for NAME, `[texts[1]]` for DESIGNATION, the collected values otherwise. `Classifier.CascadeBucket` and `Classifier.AssembledBuckets` use it. |
| Classifier.Gather | Script.py:44-56 | A bucket never holds more values than there are placements. |
| Classifier.GatherAppendOne | Script.py:42-56 | One more placement appends its value to its own bucket and leaves every other bucket unchanged. |
| Classifier.GatherAppend | Script.py:42-56 | Gathering over consecutive runs of placements concatenates the gathers of each run, in order. |
| Classifier.ClassifyAllAppend | Script.py:42 | Classifying consecutive runs of lines concatenates their placements. |
| Classifier.LineLandsInOneBucket | Script.py:42-56 | Line j adds its stored value to its own bucket, between the values of the lines before it and those after it. It adds nothing to any other bucket. |
| Classifier.GatherEmptyIff | Script.py:42-56 | A bucket is empty exactly when no placement goes into it. |
| Classifier.CollectedEmptyIff | Script.py:42-56 | A bucket is empty exactly when no line is classified into it. |
| Classifier.CollectedSliceEmptyIff | Script.py:42-56 | The same, for any run `texts[lo..hi]` of the input lines. |
| Classifier.GatherSingle | Script.py:42-56 | A placement that shares its bucket with no other placement is the bucket's only value. |
| Classifier.GatherFrom | Script.py:44-56 | Every gathered value was stored by some placement into that bucket. |
| Classifier.CollectedFromLines | Script.py:44-56 | Every collected value was stored for some line classified into that bucket. |
| Classifier.GatherPartition | Script.py:42-56 | Name and designation gather nothing from the loop. The six other buckets together hold exactly one value per placement. |
| Classifier.BucketsPartitionLines | Script.py:42-56 | Every line from the third on goes to exactly one of the six buckets. The loop adds nothing to name or designation. |
| Classifier.CollectedStep | Script.py:42-56 | One loop iteration appends line i's stored value to its own bucket and changes no other bucket. |
| Classifier.AssembledBuckets | Script.py:36-56 | The dictionary built from `[texts[0]]`, `[texts[1]]` and the six collected buckets has the eight keys, each holding the bucket's contents. |
| Classifier.Render | Script.py:59-64 | An empty bucket renders as `"NA"`. A one-value bucket renders as that value. |
| Classifier.ExtractedCard | Script.py:36-37 | The returned dictionary has exactly the eight keys. |
| Classifier.CardEntry | Script.py:58-64 | Each key holds the one-element list of its bucket's rendering. |
| Classifier.CascadeBucket | Script.py:42-56 | Every key but the name and the designation holds what the lines from the third on put there. |
| Classifier.CardByKeys | Script.py:58-64 | A dictionary with the eight keys, each holding its bucket's rendering, is the extracted card. |
| Classifier.CardShape | Script.py:36-37 | All eight keys are defined, and each holds a list of exactly one string. |
| Classifier.NameAndDesignationVerbatim | Script.py:39-40 | NAME is `[texts[0]]` and DESIGNATION is `[texts[1]]`, verbatim, whatever the lines look like. |
| Classifier.JoinedOrSentinel | Script.py:42-64 | Every other key holds `["NA"]` when no line from the third on was classified into it. Otherwise it holds the space-join of the values stored for those lines, in input order. |
| Classifier.AloneInBucket | Script.py:42-64 | A line that shares its bucket with no other line is that key's whole value. |
| Classifier.LaterKey | Script.py:42-64 | Every key but NAME and DESIGNATION holds the one-element list of the rendering of what the later lines put there. |
| Classifier.Row | Script.py:139-141 | The card's values as one row in key order. This is the order in which they bind by position to the columns of the INSERT statement. It has one entry per key. |
| Classifier.CardRow | Script.py:36-64 | The row of the extracted card is the name, the designation, then the rendering of the company name, contact, email, website, address and pincode buckets, in that order. |
| Classifier.TwoLinesLeaveSentinels | Script.py:39-64 | With exactly two lines, NAME and DESIGNATION are those lines and the six other keys are `["NA"]`. |
| Classifier.CollectedWebsitesAreLowerCase | Script.py:47-49 | No value collected in the website bucket contains an upper-case letter. |
| Classifier.WebsiteIsLowerCase | Script.py:47-64 | The stored website is `"NA"` or contains no upper-case letter. |
| Classifier.AddressHasNoSeparators | Script.py:54-64 | The stored address contains no comma and no semicolon, whether it is a join or `"NA"`. |
| CardExamples.PlusLineIsContact | Script.py:43-44 | `+91-9876543210` is a contact. |
| CardExamples.AtAndDotComIsEmail | Script.py:45-46 | `John@Example.com` is an email. |
| CardExamples.SixDigitsIsPincode | Script.py:50-51 | `600001` is a pincode. |
| Classifier.SeparatedAddress | Script.py:43-56 | A digit-led line made of plain pieces joined by commas or semicolons is an address. It is stored as the pieces' concatenation, in order. |
| CardExamples.AddressLosesSeparators | Script.py:54-56 | `12, Main Street; Chennai` is an address, stored as `12 Main Street Chennai`. |
| Classifier.DigitLedLineIsAddress | Script.py:43-56 | A line starting with a digit, not all digits, and holding none of `-`, `@`, `W`, `w`, `T` is an address, stored with its separators removed. |
| Classifier.StripBetween | Script.py:55 | Removing the separators around three separator-free pieces leaves the pieces' concatenation, in order. |
| Classifier.LeadingMixedCaseWww | Script.py:47-53 | A line starting with `WwW` that has no further `w`, `W`, `@` or `T` matches none of the five spellings and is a company name. |
| CardExamples.MixedCaseWwwIsCompanyName | Script.py:47-53 | `WwW.AcmeCorp.com` is a company name, not a website. |
| Classifier.KeyIndex | Script.py:36-37 | Every field has a position in the dictionary's key order. |
| Strings.StartsWith | Script.py:43 | `s.startswith(p)`: `p` is a prefix of `s`. `Classifier.ContactRule` reads it as "the first character is `+`". |
| Strings.Contains | Script.py:45-50 | Python's `sub in s`, searched from the front. `Strings.ContainsIffOccurs` proves it equals "occurs at some position". |
| Strings.IsDigits | Script.py:43 | `s.isdigit()` over ASCII: non-empty and every character is a digit. Script.py:50 uses it directly. `Strings.DigitsWithout` characterises it after dash removal. |
| Strings.ContainsIffOccurs | Script.py:45-50 | The substring test `sub in s` holds exactly when `sub` occurs at some position of `s`. |
| Strings.Without | Script.py:43 | Removing characters never lengthens a string. |
| Strings.WithoutChars | Script.py:43 | Every character left after removal comes from `s` and is not one of the removed characters. Script.py:55 uses the same removal. |
| Strings.WithoutKeepsOthers | Script.py:55 | Every character that is not removed survives exactly as often as it occurs. |
| Strings.WithoutAppend | Script.py:55 | Removal works piece by piece, so the surviving characters keep their order. |
| Strings.WithoutSkips | Script.py:55 | A removed character between two runs drops out, and the runs are kept. |
| Strings.WithoutIsIdentity | Script.py:55 | Removal changes nothing exactly when there is nothing to remove. |
| Strings.DigitsWithout | Script.py:43 | Deleting the dashes leaves a digit string exactly when the line holds some character other than `-` and every such character is a digit. |
| Strings.LowerChar | Script.py:48 | The result is never upper-case. An upper-case letter maps to its lower-case partner. Every other character is unchanged. |
| Strings.Lower | Script.py:48 | Same length, and no upper-case letter in the result. Every other character is unchanged. Upper-case letters map to their lower-case partners. |
| Strings.Join | Script.py:60 | Joining one part gives that part. Joining none gives the empty string. |
| Strings.JoinAppend | Script.py:60 | Joining two non-empty runs puts exactly one space between their joins. |
| Strings.JoinLength | Script.py:60 | The joined length is the parts' total length plus one for each separator. |
| Strings.JoinChars | Script.py:60 | Every character of a join is a space or comes from one of the parts. |
| Strings.OccursContains | Script.py:45-50 | An occurrence at a given position makes the substring test succeed. |
| Strings.MissingCharNotContained | Script.py:45-50 | A string lacking one of `sub`'s characters does not contain `sub`. |
| Strings.ContainedInPrefix | Script.py:47 | If no character of `sub` occurs in `b`, any occurrence of `sub` in `a + b` lies within `a`. |
| Strings.ContainsSameLength | Script.py:47 | A string contains a string of its own length exactly when the two are equal. |

## Left out

- Everything around the classifier is not part of this model: image upload, the OCR reader, the SQLite table, pandas and the Streamlit interface. None of them affects the classification.
- Classifier.ExtractedText: requires at least two lines. With fewer, the source fails with an `IndexError` on `texts[0]` or `texts[1]`; the model has no error result for that case.
- Text is modelled as ASCII. Python's `isdigit` also accepts non-ASCII digits such as superscripts. Its `lower` maps non-ASCII letters, and `[A-Za-z]` without `re.ASCII` is still ASCII-only. The model counts only `0`-`9` as digits and lower-cases only `A`-`Z`.
- Only the five spellings `WWW`, `www`, `Www`, `wWw`, `wwW` make a line a website. Other mixed-case spellings, such as `WwW`, do not. `WwW.AcmeCorp.com` starts with a letter and becomes a company name (`CardExamples.MixedCaseWwwIsCompanyName`).
- There is no worked example of a whole card made of literal strings. `Classifier.AloneInBucket` covers the case of one line per bucket for every input.
- The dictionary is modelled as a Dafny map from the eight fields to lists of strings, and a map does not record key order. The returned dictionary has its keys in creation order, `Classifier.Keys`. That order reaches the caller: `pd.DataFrame` takes its column order from it, and the INSERT binds the values by position. The model captures that order separately, as `Classifier.Row` (proved by `Classifier.CardRow`). The second pass visits the keys in the same order, as the source does.
