/**
  The name of the downloaded workbook: client and project names with spaces
  turned into underscores, the word "estimate" and the day's date in
  YYYY-MM-DD form, with the .xlsx extension.
 */
module Export {

  /** The character written for c: an underscore for a space, c itself otherwise. */
  function Unspaced(c: char): (u: char)
  {
    if c == ' ' then '_' else c
  }

  /** `s.replace(' ', '_')`: the same string with every space replaced by an underscore. */
  function Underscored(s: string): (r: string)
    ensures |r| == |s|
    ensures ' ' !in r
  {
    if s == [] then []
    else [Unspaced(s[0])] + Underscored(s[1..])
  }

  /** Replacing spaces changes each space and nothing else, position by position. */
  lemma {:induction false} UnderscoredPointwise(s: string)
    ensures forall i :: 0 <= i < |s| ==> Underscored(s)[i] == Unspaced(s[i])
  {
    if s != [] {
      UnderscoredPointwise(s[1..]);
      assert forall i :: 1 <= i < |s| ==> Underscored(s)[i] == Underscored(s[1..])[i - 1];
    }
  }

  /** A string without spaces is left as it is. */
  lemma {:induction false} UnderscoredKeepsSpaceless(s: string)
    requires ' ' !in s
    ensures Underscored(s) == s
  {
    if s != [] {
      assert s[0] in s;
      assert ' ' !in s[1..] by {
        forall i | 0 <= i < |s| - 1 ensures s[1..][i] != ' ' {
          assert s[1..][i] == s[i + 1];
        }
      }
      UnderscoredKeepsSpaceless(s[1..]);
      assert s == [s[0]] + s[1..];
    }
  }

  /** Replacing spaces a second time changes nothing. */
  lemma UnderscoredIdempotent(s: string)
    ensures Underscored(Underscored(s)) == Underscored(s)
  {
    UnderscoredKeepsSpaceless(Underscored(s));
  }

  /** The decimal digit of d. */
  function Digit(d: nat): (c: char)
    requires d < 10
    ensures '0' <= c <= '9'
  {
    ('0' as int + d) as char
  }

  /** n written with exactly `width` decimal digits, zero-padded on the left. */
  function Padded(n: nat, width: nat): (s: string)
    ensures |s| == width
    ensures forall i :: 0 <= i < |s| ==> '0' <= s[i] <= '9'
  {
    if width == 0 then []
    else Padded(n / 10, width - 1) + [Digit(n % 10)]
  }

  /** The number a string of decimal digits denotes. */
  function DigitsValue(s: string): (v: nat)
    requires forall i :: 0 <= i < |s| ==> '0' <= s[i] <= '9'
  {
    if s == [] then 0
    else 10 * DigitsValue(s[..|s| - 1]) + (s[|s| - 1] as int - '0' as int)
  }

  /** Zero-padding loses no digit when the number fits. */
  lemma {:induction false} PaddedRoundTrip(n: nat, width: nat, bound: nat)
    requires bound == Pow10(width) && n < bound
    ensures DigitsValue(Padded(n, width)) == n
  {
    if width > 0 {
      var s := Padded(n, width);
      assert s[..|s| - 1] == Padded(n / 10, width - 1);
      PaddedRoundTrip(n / 10, width - 1, Pow10(width - 1));
    }
  }

  /** 10 to the power k. */
  function Pow10(k: nat): (p: nat)
    ensures p >= 1
  {
    if k == 0 then 1 else 10 * Pow10(k - 1)
  }

  /** `strftime("%Y-%m-%d")` for a four-digit year. */
  function IsoDate(year: nat, month: nat, day: nat): (s: string)
    requires 1000 <= year <= 9999 && 1 <= month <= 12 && 1 <= day <= 31
    ensures |s| == 10 && s[4] == '-' && s[7] == '-'
    ensures ' ' !in s
  {
    Padded(year, 4) + "-" + Padded(month, 2) + "-" + Padded(day, 2)
  }

  /** The date stamp reads back as the year, the month and the day it was written from. */
  lemma IsoDateRoundTrip(year: nat, month: nat, day: nat)
    requires 1000 <= year <= 9999 && 1 <= month <= 12 && 1 <= day <= 31
    ensures DigitsValue(IsoDate(year, month, day)[..4]) == year
    ensures DigitsValue(IsoDate(year, month, day)[5..7]) == month
    ensures DigitsValue(IsoDate(year, month, day)[8..]) == day
  {
    var s := IsoDate(year, month, day);
    assert s[..4] == Padded(year, 4);
    assert s[5..7] == Padded(month, 2);
    assert s[8..] == Padded(day, 2);
    PaddedRoundTrip(year, 4, Pow10(4));
    PaddedRoundTrip(month, 2, Pow10(2));
    PaddedRoundTrip(day, 2, Pow10(2));
  }

  /** The download's file name, for a date string given by the caller. */
  function ExportFilename(client: string, project: string, date: string): (f: string)
    ensures |f| == |client| + |project| + |date| + 16
    ensures f[..|client|] == Underscored(client) && f[|client|] == '_'
    ensures f[|client| + 1..|client| + 1 + |project|] == Underscored(project)
    ensures f[|client| + 1 + |project|..|f| - 5] == "_estimate_" + date
    ensures f[|f| - 5..] == ".xlsx"
    ensures ' ' !in date ==> ' ' !in f
  {
    var f := Underscored(client) + "_" + Underscored(project) + "_estimate_" + date + ".xlsx";
    assert f[|client| + 1..|client| + 1 + |project|] == Underscored(project);
    assert f[|client| + 1 + |project|..|f| - 5] == "_estimate_" + date;
    f
  }

  /** With the date stamp of any day, the file name has no spaces. */
  lemma ExportFilenameHasNoSpaces(client: string, project: string, year: nat, month: nat, day: nat)
    requires 1000 <= year <= 9999 && 1 <= month <= 12 && 1 <= day <= 31
    ensures ' ' !in ExportFilename(client, project, IsoDate(year, month, day))
  {
  }

  /** Worked example of the date stamp: 1 June 2024. */
  lemma IsoDateExample()
    ensures IsoDate(2024, 6, 1) == "2024-06-01"
  {
  }

  /** Worked example of the space replacement: "Acme Co" becomes "Acme_Co". */
  lemma UnderscoredExample(s: string)
    requires s == "Acme Co"
    ensures Underscored(s) == "Acme_Co"
  {
    UnderscoredPointwise(s);
  }
}
