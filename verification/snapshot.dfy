/**
 * A named save point (Snapshot.cs): a title and the snaps captured together,
 * in selection order, with its one-line description.
 */
module Snapshots {
  import opened Snaps

  datatype Snapshot = Snapshot(title: string, snaps: seq<Snap>)
  {
    /** "[Snapshot] <title> -- # Snaps: <number of snaps>" */
    function ToString(): (r: string)
      ensures |r| >= 25 + |title|
      ensures r[..11] == "[Snapshot] "
      ensures r[11..11 + |title|] == title
      ensures r[11 + |title|..24 + |title|] == " -- # Snaps: "
      ensures r[24 + |title|..] == NatToDecimal(|snaps|)
      ensures IsDecimal(r[24 + |title|..]) && DecimalValue(r[24 + |title|..]) == |snaps|
    {
      var count := NatToDecimal(|snaps|);
      DecimalRoundTrip(|snaps|);
      var r := "[Snapshot] " + title + " -- # Snaps: " + count;
      assert r[24 + |title|..] == count;
      r
    }
  }

  function DigitChar(d: nat): (c: char)
    requires d < 10
    ensures '0' <= c <= '9' && (c as int) - ('0' as int) == d
  {
    "0123456789"[d]
  }

  predicate IsDecimal(s: string)
  {
    |s| > 0 && forall k :: 0 <= k < |s| ==> '0' <= s[k] <= '9'
  }

  /** The value of a string of decimal digits, most significant first. */
  function DecimalValue(s: string): nat
    requires forall k :: 0 <= k < |s| ==> '0' <= s[k] <= '9'
    decreases |s|
  {
    if s == [] then 0
    else DecimalValue(s[..|s| - 1]) * 10 + ((s[|s| - 1] as int) - ('0' as int))
  }

  /** The decimal text of a count, as C# formats an int: no sign, no leading zero. */
  function NatToDecimal(n: nat): (s: string)
    ensures IsDecimal(s)
    ensures s[0] == '0' ==> s == "0"
    decreases n
  {
    if n < 10 then [DigitChar(n)] else NatToDecimal(n / 10) + [DigitChar(n % 10)]
  }

  /** Reading the decimal text of a count gives the count back. */
  lemma {:induction false} DecimalRoundTrip(n: nat)
    ensures DecimalValue(NatToDecimal(n)) == n
    decreases n
  {
    var s := NatToDecimal(n);
    if n < 10 {
      assert s[..0] == [];
    } else {
      DecimalRoundTrip(n / 10);
      assert s[..|s| - 1] == NatToDecimal(n / 10);
    }
  }
}
