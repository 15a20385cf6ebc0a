/** The work both endpoints perform: alternate upper/lower case passes over
    the text, count its words and characters, and fingerprint the input.
    The simulated delay and the timing are not modelled; SHA-256 is a
    parameter. */
module Work {
  import opened PyStr
  import opened Models

  /** A `hexdigest()` of SHA-256: 64 lower-case hexadecimal characters. */
  type HexDigest = s: string | |s| == 64 && forall i :: 0 <= i < |s| ==> s[i] in "0123456789abcdef"
    witness seq(64, _ => '0')

  // ---------------------------------------------------------------------
  // Specification of the result fields

  /** The text after `count` passes that upper-case on even pass numbers
      and lower-case on odd ones: only the last pass matters. */
  function ProcessedText(text: string, count: int): string {
    if count <= 0 then text
    else if count % 2 == 1 then Upper(text)
    else Lower(text)
  }

  /** `len(text.split())` */
  function WordCount(text: string): nat {
    |Split(text)|
  }

  /** The string that is hashed: `f"{text}:{count}"`. */
  function HashKey(text: string, count: int): string {
    text + ":" + IntToDecimal(count)
  }

  /** The first 16 hex characters of the digest of the hash key. */
  function InputHash(text: string, count: int, sha256: string -> HexDigest): (h: string)
    ensures |h| == 16
    ensures h <= sha256(HashKey(text, count))
    ensures forall i :: 0 <= i < |h| ==> h[i] in "0123456789abcdef"
  {
    sha256(HashKey(text, count))[..16]
  }

  /** Distinct (text, count) pairs give distinct hash keys, since the
      rendered count never contains ':'. */
  lemma HashKeyInjective(t1: string, c1: int, t2: string, c2: int)
    requires HashKey(t1, c1) == HashKey(t2, c2)
    ensures t1 == t2 && c1 == c2
  {
    var d1, d2 := IntToDecimal(c1), IntToDecimal(c2);
    assert t1 + [':'] + d1 == t2 + [':'] + d2;
    SplitAtLastColon(t1, d1, t2, d2);
    IntToDecimalInjective(c1, c2);
  }

  /** A string ending in ':' followed by a colon-free tail splits there
      in only one way. */
  lemma SplitAtLastColon(t1: string, d1: string, t2: string, d2: string)
    requires t1 + [':'] + d1 == t2 + [':'] + d2
    requires forall j :: 0 <= j < |d1| ==> d1[j] != ':'
    requires forall j :: 0 <= j < |d2| ==> d2[j] != ':'
    ensures t1 == t2 && d1 == d2
  {
    var k := t1 + [':'] + d1;
    LastColonAt(t1, d1);
    LastColonAt(t2, d2);
    assert |t1| == |t2|;
    assert t1 == k[..|t1|] == t2;
    assert d1 == k[|t1| + 1..] == d2;
  }

  /** In t + ":" + d with d colon-free, the colon after t is the last one. */
  lemma LastColonAt(t: string, d: string)
    requires forall j :: 0 <= j < |d| ==> d[j] != ':'
    ensures var k := t + [':'] + d; k[|t|] == ':' && forall j :: |t| < j < |k| ==> k[j] != ':'
  {
    var k := t + [':'] + d;
    forall j | |t| < j < |k| ensures k[j] != ':' {
      assert k[j] == d[j - |t| - 1];
    }
  }

  /** The result `perform_work` returns for an input. */
  function ResultOf(input: WorkInput, sha256: string -> HexDigest): (r: WorkResult)
    ensures r.characterCount == |input.text| && r.iterations == input.count
  {
    WorkResult(InputHash(input.text, input.count, sha256), WordCount(input.text), |input.text|,
               ProcessedText(input.text, input.count), input.count)
  }

  // ---------------------------------------------------------------------
  // perform_work

  /** Runs the case passes one by one, then fills in the counts. */
  method PerformWork(input: WorkInput, sha256: string -> HexDigest) returns (r: WorkResult)
    ensures r.processedText == ProcessedText(input.text, input.count)
    ensures r.wordCount == WordCount(input.text)
    ensures r.characterCount == |input.text|
    ensures r.iterations == input.count
    ensures r.inputHash == InputHash(input.text, input.count, sha256)
    ensures r == ResultOf(input, sha256)
  {
    var text := input.text;
    var iterations := input.count;
    var processed := text;
    var i := 0;
    while i < iterations
      invariant 0 <= i <= (if iterations < 0 then 0 else iterations)
      invariant processed == ProcessedText(text, i)
    {
      ProcessedTextStep(text, i);
      processed := if i % 2 == 0 then Upper(processed) else Lower(processed);
      i := i + 1;
    }
    var inputHash := InputHash(text, iterations, sha256);
    var wordCount := |Split(text)|;
    var characterCount := |text|;
    r := WorkResult(inputHash, wordCount, characterCount, processed, iterations);
  }

  /** One more pass upper-cases after an even number of passes and
      lower-cases after an odd one. */
  lemma ProcessedTextStep(text: string, i: nat)
    ensures ProcessedText(text, i + 1)
         == if i % 2 == 0 then Upper(ProcessedText(text, i)) else Lower(ProcessedText(text, i))
  {
    if i % 2 == 0 && i > 0 {
      UpperOfLower(text);
    } else if i % 2 == 1 {
      LowerOfUpper(text);
    }
  }

  /** "Hello World" with count 2: two words, eleven characters, all lower
      case. */
  lemma HelloWorldExample(text: string)
    requires text == "Hello World"
    ensures WordCount(text) == 2
    ensures |text| == 11
    ensures ProcessedText(text, 2) == "hello world"
  {
    HelloWorldWords(text);
    HelloWorldLower(text);
  }

  // Only helps the solver evaluate one literal for a nearby example; no source counterpart.
  lemma HelloWorldWords(text: string)
    requires text == "Hello World"
    ensures Split(text) == ["Hello", "World"]
  {
    var words := ["Hello", "World"];
    assert NoSpace(words[0]) && NoSpace(words[1]);
    assert Join(words) == text;
    SplitJoin(words);
  }

  // Only helps the solver evaluate one literal for a nearby example; no source counterpart.
  lemma HelloWorldLower(text: string)
    requires text == "Hello World"
    ensures Lower(text) == "hello world"
  {
    var l := Lower(text);
    assert l[0] == 'h' && l[6] == 'w';
  }
}
