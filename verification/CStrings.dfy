/**
 C strings and strcmp.
 */
module CStrings {

  /** A character of a C string. */
  type Byte = b: int | 1 <= b <= 255 witness 1

  type Text = seq<Byte>

  /** strcmp: negative, zero or positive. */
  function Compare(a: Text, b: Text): int
  {
    if a == [] then (if b == [] then 0 else -1)
    else if b == [] then 1
    else if a[0] < b[0] then -1
    else if b[0] < a[0] then 1
    else Compare(a[1..], b[1..])
  }

  predicate Less(a: Text, b: Text)
  {
    Compare(a, b) < 0
  }

  lemma {:induction false} CompareLaws(a: Text, b: Text)
    ensures Compare(a, b) == 0 <==> a == b
    ensures Compare(a, b) > 0 <==> Compare(b, a) < 0
  {
    if a != [] && b != [] && a[0] == b[0] {
      CompareLaws(a[1..], b[1..]);
      assert a == [a[0]] + a[1..] && b == [b[0]] + b[1..];
    }
  }

  lemma {:induction false} LessTrans(a: Text, b: Text, c: Text)
    requires Less(a, b) && Less(b, c)
    ensures Less(a, c)
  {
    if a != [] && b != [] && c != [] && a[0] == b[0] == c[0] {
      LessTrans(a[1..], b[1..], c[1..]);
    }
  }

  /** The first difference decides; a string is smaller than a longer one that it
      begins. */
  lemma {:induction false} CompareDecides(a: Text, b: Text, k: nat)
    requires k <= |a| && k < |b| && a[..k] == b[..k] && (k < |a| ==> a[k] < b[k])
    ensures Compare(a, b) < 0 && Compare(b, a) > 0
  {
    if k > 0 {
      assert a[0] == a[..k][0] == b[..k][0] == b[0];
      assert a[1..][..k - 1] == a[..k][1..] && b[1..][..k - 1] == b[..k][1..];
      CompareDecides(a[1..], b[1..], k - 1);
    }
  }
}
