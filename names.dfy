/**
 * The string side of the harvester: the file-name filter `file_regex`, the
 * extension extraction `file_extension_regex`, and the generated output name
 * (the copy-time clock value followed by the extension).
 *
 * Both patterns are written in the program as JavaScript string literals, in
 * which `\.` is an unnecessary escape for `.`; the patterns the regular
 * expression engine sees are therefore `.*.jpg$` and `.[a-zA-Z0-9]+$`, and
 * their `.` matches any character but a line terminator.
 */
module Names {
  import opened Wrappers

  /** The characters `.` in a JavaScript regular expression does not match. */
  predicate IsLineTerminator(c: char) {
    c == '\n' || c == '\r' || c == '\U{2028}' || c == '\U{2029}'
  }

  /** The character class `[a-zA-Z0-9]`. */
  predicate IsAlnum(c: char) {
    ('a' <= c <= 'z') || ('A' <= c <= 'Z') || ('0' <= c <= '9')
  }

  predicate EndsWithJpg(s: string) {
    |s| >= 3 && s[|s| - 3..] == "jpg"
  }

  predicate NoLineTerminators(s: string) {
    forall i :: 0 <= i < |s| ==> !IsLineTerminator(s[i])
  }

  // ---------------------------------------------------------------------------
  // file_regex = `.*.jpg$`, used with `test`

  /**
   * One way for `.*.jpg$` to match `name`, the search having started at
   * position `s`: `.*` takes name[s..k], the second `.` takes name[k], then
   * the three letters `jpg`, then the end of the input.
   */
  ghost predicate FilterMatchAt(name: string, s: int, k: int) {
    && 0 <= s <= k
    && k + 4 == |name|
    && (forall j :: s <= j <= k ==> !IsLineTerminator(name[j]))
    && name[k + 1..] == "jpg"
  }

  /** `test` succeeds when a match begins at some position. */
  ghost predicate FilterMatches(name: string) {
    exists s, k :: FilterMatchAt(name, s, k)
  }

  /** `file_regex.test(name)` */
  function FileRegexTest(name: string): bool {
    |name| >= 4 && !IsLineTerminator(name[|name| - 4]) && name[|name| - 3..] == "jpg"
  }

  /** The filter decides exactly the regular-expression search it stands for. */
  lemma FileRegexTestIsSearch(name: string)
    ensures FileRegexTest(name) <==> FilterMatches(name)
  {
    if FileRegexTest(name) {
      assert FilterMatchAt(name, |name| - 4, |name| - 4);
    }
    if FilterMatches(name) {
      var s, k :| FilterMatchAt(name, s, k);
      assert !IsLineTerminator(name[k]);
    }
  }

  /**
   * On names without line terminators the filter is "at least four
   * characters, ending in lower-case jpg"; the dot before `jpg` is not
   * required to be a dot.
   */
  lemma FileRegexTestOnPlainNames(name: string)
    requires NoLineTerminators(name)
    ensures FileRegexTest(name) <==> |name| >= 4 && EndsWithJpg(name)
  {
  }

  /** A few names, decided by the filter. */
  lemma FileRegexExamples()
    ensures FileRegexTest("photo.jpg")
    ensures !FileRegexTest("photo.png")
    ensures !FileRegexTest("photo.JPG")
    ensures FileRegexTest("xjpg")
    ensures !FileRegexTest("jpg")
    ensures !FileRegexTest("a\njpg")
  {
    FileRegexTestIsSearch("photo.png");
  }

  // ---------------------------------------------------------------------------
  // file_extension_regex = `.[a-zA-Z0-9]+$`, used with `exec(...)[0]`

  /**
   * A match of `.[a-zA-Z0-9]+$` that begins at position `s`: one character
   * that is not a line terminator, then one or more alphanumerics reaching
   * the end of the input. Such a match is always the whole suffix name[s..].
   */
  ghost predicate ExtensionMatchAt(name: string, s: int) {
    && 0 <= s
    && s + 1 < |name|
    && !IsLineTerminator(name[s])
    && forall j :: s < j < |name| ==> IsAlnum(name[j])
  }

  /** Where the maximal run of trailing alphanumerics of `name` begins. */
  function AlnumRunStart(name: string): (k: nat)
    ensures k <= |name|
    ensures forall j :: k <= j < |name| ==> IsAlnum(name[j])
    ensures k == 0 || !IsAlnum(name[k - 1])
  {
    if |name| == 0 || !IsAlnum(name[|name| - 1]) then |name|
    else
      var k := AlnumRunStart(name[..|name| - 1]);
      assert forall j :: k <= j < |name| - 1 ==> name[..|name| - 1][j] == name[j];
      k
  }

  /**
   * `file_extension_regex.exec(name)`, reduced to the matched text: None
   * when the name does not end in an alphanumeric; otherwise the
   * character before the trailing alphanumeric run followed by that run,
   * or, when that character is a line terminator or there is none, the
   * run alone if it has at least two characters; None where `exec`
   * returns null.
   */
  function ExtensionOf(name: string): Option<string> {
    var k := AlnumRunStart(name);
    if k == |name| then None
    else if k > 0 && !IsLineTerminator(name[k - 1]) then Some(name[k - 1..])
    else if |name| - k >= 2 then Some(name[k..])
    else None
  }

  /**
   * A name the filter accepts always has an extension (so `exec(...)[0]`
   * never dereferences null), and that extension is a suffix of the name of
   * at least four characters ending in `jpg`.
   */
  lemma FilteredNameHasExtension(name: string)
    requires FileRegexTest(name)
    ensures ExtensionOf(name).Some?
    ensures 4 <= |ExtensionOf(name).value| <= |name|
    ensures ExtensionOf(name).value == name[|name| - |ExtensionOf(name).value|..]
    ensures EndsWithJpg(ExtensionOf(name).value)
  {
    var n := |name|;
    var k := AlnumRunStart(name);
    assert name[n - 3] == 'j' && name[n - 2] == 'p' && name[n - 1] == 'g' by {
      assert name[n - 3..] == "jpg";
      assert name[n - 3..][0] == name[n - 3] && name[n - 3..][1] == name[n - 2] && name[n - 3..][2] == name[n - 1];
    }
    assert k <= n - 3;
    var e := ExtensionOf(name).value;
    assert e == name[n - |e|..];
    assert e[|e| - 3..] == name[n - 3..];
  }

  /**
   * ExtensionOf is the result of a leftmost-match search for the pattern:
   * None exactly when no position starts a match, and otherwise the text of
   * the match that starts leftmost.
   */
  lemma ExtensionIsLeftmostMatch(name: string)
    ensures ExtensionOf(name).None? <==> forall s :: 0 <= s < |name| ==> !ExtensionMatchAt(name, s)
    ensures ExtensionOf(name).Some? ==>
              exists s :: && ExtensionMatchAt(name, s)
                          && ExtensionOf(name).value == name[s..]
                          && forall t :: 0 <= t < s ==> !ExtensionMatchAt(name, t)
  {
    var k: int := AlnumRunStart(name);
    // no match can start before k - 1: it would need name[k - 1] to be alphanumeric
    forall t | 0 <= t < k - 1 ensures !ExtensionMatchAt(name, t) {
      assert !IsAlnum(name[k - 1]);
    }
    if k == |name| {
      forall s | 0 <= s < |name| ensures !ExtensionMatchAt(name, s) {
        if s == |name| - 1 {
          assert s + 1 >= |name|;
        } else {
          assert !IsAlnum(name[|name| - 1]);
        }
      }
    } else if k > 0 && !IsLineTerminator(name[k - 1]) {
      assert ExtensionMatchAt(name, k - 1);
    } else if |name| - k >= 2 {
      assert ExtensionMatchAt(name, k);
      if k > 0 {
        assert !ExtensionMatchAt(name, k - 1);
      }
    } else {
      forall s | 0 <= s < |name| ensures !ExtensionMatchAt(name, s) {
        if s == k - 1 {
          assert IsLineTerminator(name[k - 1]);
        } else if s >= k {
          assert s + 1 >= |name|;
        }
      }
    }
  }

  /**
   * On names without line terminators that end in an alphanumeric: the
   * character before the trailing run and the run, or the whole name.
   */
  lemma ExtensionOfPlainName(name: string)
    requires NoLineTerminators(name)
    requires |name| >= 2 && IsAlnum(name[|name| - 1])
    ensures AlnumRunStart(name) == 0 ==> ExtensionOf(name) == Some(name)
    ensures AlnumRunStart(name) > 0 ==> ExtensionOf(name) == Some(name[AlnumRunStart(name) - 1..])
  {
  }

  lemma ExtensionExamples()
    ensures ExtensionOf("photo.jpg") == Some(".jpg")
    ensures ExtensionOf("xjpg") == Some("xjpg")
    ensures ExtensionOf("a.") == None
  {
    var k := AlnumRunStart("photo.jpg");
    assert !IsAlnum("photo.jpg"[5]);
    assert k == 6;
    assert "photo.jpg"[5..] == ".jpg";
  }

  // ---------------------------------------------------------------------------
  // output name: `new Date().getTime() + file_extension`

  function DigitChar(d: nat): (c: char)
    requires d < 10
    ensures '0' <= c <= '9' && c as int - '0' as int == d
  {
    ('0' as int + d) as char
  }

  predicate IsDigits(s: string) {
    forall i :: 0 <= i < |s| ==> '0' <= s[i] <= '9'
  }

  /** Decimal digits of `n`, most significant first, without leading zeros. */
  function DigitString(n: nat): (s: string)
    ensures |s| >= 1 && IsDigits(s)
  {
    if n < 10 then [DigitChar(n)] else DigitString(n / 10) + [DigitChar(n % 10)]
  }

  /** The digits are JavaScript's plain decimal form: "0" for zero, and no leading zero otherwise. */
  lemma {:induction false} DigitStringNoLeadingZero(n: nat)
    ensures n == 0 ==> DigitString(n) == "0"
    ensures n > 0 ==> DigitString(n)[0] != '0'
  {
    if n >= 10 {
      DigitStringNoLeadingZero(n / 10);
      assert DigitString(n)[0] == DigitString(n / 10)[0];
    }
  }

  /** The number a string of decimal digits denotes. */
  function DigitsValue(s: string): nat
    requires IsDigits(s)
  {
    if s == [] then 0
    else DigitsValue(s[..|s| - 1]) * 10 + (s[|s| - 1] as int - '0' as int)
  }

  lemma {:induction false} DigitStringRoundTrip(n: nat)
    ensures DigitsValue(DigitString(n)) == n
  {
    if n >= 10 {
      var s := DigitString(n);
      assert s[..|s| - 1] == DigitString(n / 10);
      DigitStringRoundTrip(n / 10);
    }
  }

  /**
   * How JavaScript writes an integral Number as a string: an optional minus
   * sign, then the decimal digits of its magnitude.
   */
  function NumberString(t: int): string {
    if t < 0 then "-" + DigitString(-t) else DigitString(t)
  }

  /** Reading back an optional minus sign and decimal digits. */
  function ParseNumber(s: string): Option<int> {
    if |s| >= 2 && s[0] == '-' && IsDigits(s[1..]) then Some(-(DigitsValue(s[1..]) as int))
    else if |s| >= 1 && IsDigits(s) then Some(DigitsValue(s))
    else None
  }

  lemma NumberStringRoundTrip(t: int)
    ensures ParseNumber(NumberString(t)) == Some(t)
  {
    var m: nat := if t < 0 then -t else t;
    var d := DigitString(m);
    DigitStringRoundTrip(m);
    if t < 0 {
      var s := "-" + d;
      assert s[1..] == d;
      assert ParseNumber(s) == Some(-(DigitsValue(d) as int));
    } else {
      assert '0' <= d[0] <= '9';
      assert ParseNumber(d) == Some(DigitsValue(d));
    }
  }

  /** The generated name of a copy: the clock reading, then the extension. */
  function OutputName(stamp: int, ext: string): string {
    NumberString(stamp) + ext
  }

  /**
   * A generated name splits back into its two parts: it ends in the
   * extension, and what comes before reads back as the clock reading.
   */
  lemma OutputNameSplits(stamp: int, ext: string)
    ensures var r := OutputName(stamp, ext);
            && |r| > |ext| && r[|r| - |ext|..] == ext
            && ParseNumber(r[..|r| - |ext|]) == Some(stamp)
  {
    NumberStringRoundTrip(stamp);
    var digits := NumberString(stamp);
    assert (digits + ext)[..|digits|] == digits;
    assert (digits + ext)[|digits|..] == ext;
  }
}
