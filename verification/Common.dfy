/** Types and constants shared by all parts of the master. */
module Common {

  datatype Option<T> = None | Some(value: T) {
    function GetOr(default: T): T {
      if Some? then value else default
    }
  }

  /** Number of frames that can be under way. */
  const EC_MAXBUF: nat := 16

  /** Results in place of a work counter. */
  const EC_NOFRAME := -1
  const EC_OTHERFRAME := -2

  /** What a 16 bit variable keeps of a number. */
  function Short(n: nat): (s: nat)
    ensures s <= n && s < 0x1_0000 && (n < 0x1_0000 ==> s == n)
  {
    n % 0x1_0000
  }

  lemma ShortSplit(n: nat, k: nat)
    requires k <= Short(n)
    ensures k + Short(n - k) == Short(n)
  {}

  /** Adding up may be cut to 16 bits at every step or at the end. */
  lemma ShortAdd(a: nat, b: nat)
    ensures Short(Short(a) + b) == Short(a + b)
  {}
}
