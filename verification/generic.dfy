/** The portable scalar backend (src/parse/generic.rs): a byte-by-byte scan,
    the correctness oracle of the faster backends and their scalar tail. */
module Generic {
  import opened Scan

  /** `generic::find_nl`. */
  method FindNl(s: seq<bv8>) returns (r: nat)
    ensures r == FirstNewline(s)
  {
    var i := 0;
    while i < |s|
      invariant i <= |s|
      invariant forall j :: 0 <= j < i ==> !IsNewline(s[j])
    {
      if s[i] == LF || s[i] == CR {
        break;
      }
      i := i + 1;
    }
    // the unchecked bound of the release build: i is inside the input
    assert i <= |s|;
    FirstMatchUnique(s, Newlines, i);
    r := i;
  }

  /** `generic::find_nl_chr`. */
  method FindNlChr(s: seq<bv8>, chr: bv8) returns (r: nat)
    ensures r == FirstNewlineOr(s, chr)
  {
    var i := 0;
    while i < |s|
      invariant i <= |s|
      invariant forall j :: 0 <= j < i ==> !IsNewline(s[j]) && s[j] != chr
    {
      if s[i] == LF || s[i] == CR || s[i] == chr {
        break;
      }
      i := i + 1;
    }
    // the unchecked bound of the release build: i is inside the input
    assert i <= |s|;
    FirstMatchUnique(s, NewlinesOr(chr), i);
    r := i;
  }
}
