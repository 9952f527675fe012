/**
  How many bytes a record takes (crates/tsavorite/src/record.rs:180-215,
  335-339): a header, a deadline if there is room for one, the key and the value
  buffer, rounded up to eight bytes.
 */
module RecordLayout {

  const FIXED_HEADER_SIZE: nat := 24
  const EXPIRATION_SIZE: nat := 8

  function Align8(n: nat): (m: nat)
    ensures n <= m < n + 8 && m % 8 == 0
  {
    (n + 7) / 8 * 8
  }

  /** `RecordSizeInfo::total_size`: what the allocator sets aside. */
  function TotalSize(keyLen: nat, cap: nat, hasExpiration: bool): (n: nat)
    ensures FIXED_HEADER_SIZE + keyLen + cap <= n && n % 8 == 0
  {
    Align8(FIXED_HEADER_SIZE + (if hasExpiration then EXPIRATION_SIZE else 0) + keyLen + cap)
  }

  /** Longer values and a deadline never take less room. */
  lemma TotalSizeGrows(keyLen: nat, cap: nat, hasExpiration: bool, cap': nat, hasExpiration': bool)
    requires cap <= cap' && (hasExpiration ==> hasExpiration')
    ensures TotalSize(keyLen, cap, hasExpiration) <= TotalSize(keyLen, cap', hasExpiration')
  {
  }
}
