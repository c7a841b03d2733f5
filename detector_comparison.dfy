/** How the two response-time detectors compare on one log. */
module DetectorComparison {
  import opened Wrappers
  import opened Text
  import opened Records
  import RegexDetector
  import SplitDetector

  /** On the canonical form both detectors read the same value and report
      the same anomaly. */
  lemma AgreeOnCanonicalForm(log: Log, n: nat, thresholdMs: int)
    requires Get(log, "message") == "API response time: " + Decimal(n) + "ms"
    ensures RegexDetector.Candidate(log, thresholdMs) == SplitDetector.Flag(log, thresholdMs)
    ensures n > thresholdMs <==> SplitDetector.Flag(log, thresholdMs).Some?
  {
    RegexDetector.CanonicalMessage(n);
    SplitDetector.CanonicalValue(n);
  }

  lemma SameUpToCase(a1: string, b1: string, a2: string, b2: string)
    requires RegexDetector.EqualIgnoringCase(a1, b1) && RegexDetector.EqualIgnoringCase(a2, b2)
    ensures RegexDetector.EqualIgnoringCase(a1 + a2, b1 + b2)
  {
    var a, b := a1 + a2, b1 + b2;
    forall i | 0 <= i < |b| ensures RegexDetector.Fold(a[i]) == RegexDetector.Fold(b[i]) {
      if i >= |b1| {
        assert a[i] == a2[i - |a1|] && b[i] == b2[i - |b1|];
      } else {
        assert a[i] == a1[i] && b[i] == b1[i];
      }
    }
  }

  lemma LabelCases()
    ensures RegexDetector.EqualIgnoringCase("api response time: ", "API response time: ")
  {
  }

  /** The lower-case form of the canonical message. */
  function LowerForm(n: nat): string {
    "api response time: " + Decimal(n) + "ms"
  }

  lemma LowerFormReads(n: nat)
    ensures RegexDetector.Search(LowerForm(n)) == Some(n)
  {
    var digits := Decimal(n);
    LabelCases();
    SameUpToCase("api response time: ", "API response time: ", digits, digits);
    SameUpToCase("api response time: " + digits, "API response time: " + digits, "ms", "ms");
    RegexDetector.SearchIgnoresCase(LowerForm(n), "API response time: " + digits + "ms");
    RegexDetector.CanonicalMessage(n);
  }

  lemma LowerFormUnmarked(n: nat)
    ensures !Contains(LowerForm(n), SplitDetector.Marker)
  {
    var digits := Decimal(n);
    var m := LowerForm(n);
    forall i | 0 <= i < |m| ensures m[i] != 'A' {
      if 19 <= i < 19 + |digits| {
        assert m[i] == digits[i - 19];
      }
    }
    MissingCharNotContained(m, SplitDetector.Marker, 0);
  }

  /** Written in lower case, the canonical form is still read by the pattern
      detector, while the split detector, whose marker test is case-sensitive,
      reports nothing. */
  lemma DivergeOnLowerCase(log: Log, n: nat, thresholdMs: int)
    requires Get(log, "message") == LowerForm(n)
    requires n > thresholdMs
    ensures RegexDetector.Candidate(log, thresholdMs).Some?
    ensures SplitDetector.Flag(log, thresholdMs) == None
  {
    LowerFormReads(n);
    LowerFormUnmarked(n);
  }
}
