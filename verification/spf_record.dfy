/** Selecting the one SPF policy among a domain's TXT strings (`findSPFRecord`).

    A TXT string is an SPF policy when it starts, case-sensitively, with
    `v=spf1`; the selection succeeds only when exactly one string does, in the
    spirit of section 4.5 of RFC 7208. Zero and several matches both fail with
    the same error.
 */
module SpfRecord {
  import opened Outcomes
  import opened Text

  const Version: string := "v=spf1"

  predicate IsSpf(txt: string) {
    HasPrefix(txt, Version)
  }

  /** Position `i` holds an SPF string and no other position does. */
  ghost predicate UniqueSpfAt(txts: seq<string>, i: int) {
    && 0 <= i < |txts|
    && IsSpf(txts[i])
    && forall j :: 0 <= j < |txts| && j != i ==> !IsSpf(txts[j])
  }

  /** The strings of `txts` that are SPF policies, in their original order. */
  function SpfStrings(txts: seq<string>): (rs: seq<string>)
    ensures forall k :: 0 <= k < |rs| ==> IsSpf(rs[k])
    ensures |rs| == 0 <==> forall j :: 0 <= j < |txts| ==> !IsSpf(txts[j])
    ensures |rs| == 1 <==> exists i :: UniqueSpfAt(txts, i)
    ensures forall i :: UniqueSpfAt(txts, i) ==> rs == [txts[i]]
  {
    if |txts| == 0 then []
    else
      var rest := SpfStrings(txts[1..]);
      if IsSpf(txts[0]) then
        assert |rest| == 0 ==> UniqueSpfAt(txts, 0) by {
          if |rest| == 0 {
            forall j | 0 < j < |txts| ensures !IsSpf(txts[j]) {
              assert txts[j] == txts[1..][j - 1];
            }
          }
        }
        assert forall i :: UniqueSpfAt(txts, i) ==> i == 0;
        assert forall i :: UniqueSpfAt(txts, i) ==> |rest| == 0 by {
          forall i | UniqueSpfAt(txts, i) ensures |rest| == 0 {
            forall j | 0 <= j < |txts[1..]| ensures !IsSpf(txts[1..][j]) {
              assert txts[1..][j] == txts[j + 1];
            }
          }
        }
        [txts[0]] + rest
      else
        assert forall j :: 0 <= j < |txts| ==> (IsSpf(txts[j]) <==> j > 0 && IsSpf(txts[1..][j - 1]));
        assert forall i :: UniqueSpfAt(txts, i) <==> i > 0 && UniqueSpfAt(txts[1..], i - 1) by {
          forall i ensures UniqueSpfAt(txts, i) <==> i > 0 && UniqueSpfAt(txts[1..], i - 1) {
            if i > 0 && UniqueSpfAt(txts[1..], i - 1) {
              forall j | 0 <= j < |txts| && j != i ensures !IsSpf(txts[j]) {
                if j > 0 { assert txts[j] == txts[1..][j - 1]; }
              }
            }
            if UniqueSpfAt(txts, i) {
              forall j | 0 <= j < |txts[1..]| && j != i - 1 ensures !IsSpf(txts[1..][j]) {
                assert txts[1..][j] == txts[j + 1];
              }
            }
          }
        }
        assert (exists i :: UniqueSpfAt(txts[1..], i)) ==> exists i :: UniqueSpfAt(txts, i) by {
          if i :| UniqueSpfAt(txts[1..], i) {
            assert UniqueSpfAt(txts, i + 1);
          }
        }
        rest
  }

  /** `findSPFRecord`: the singleton list of the one SPF string, or
      `SpfRecordCount` when there is none or more than one. */
  function FindSpfRecord(txts: seq<string>): (r: Result<seq<string>>)
    ensures r.Ok? <==> exists i :: UniqueSpfAt(txts, i)
    ensures forall i :: UniqueSpfAt(txts, i) ==> r == Ok([txts[i]])
    ensures r.Err? ==> r.error == SpfRecordCount
    ensures r.Ok? ==> |r.value| == 1 && IsSpf(r.value[0]) && r.value[0] in txts
  {
    var rs := SpfStrings(txts);
    if |rs| == 0 || |rs| > 1 then Err(SpfRecordCount)
    else
      assert exists i :: UniqueSpfAt(txts, i);
      Ok(rs)
  }

  /** Two or more SPF strings are an error, never a merge. */
  lemma AmbiguousPolicyRejected(txts: seq<string>, i: int, j: int)
    requires 0 <= i < j < |txts|
    requires IsSpf(txts[i]) && IsSpf(txts[j])
    ensures FindSpfRecord(txts) == Err(SpfRecordCount)
  {
  }
}
