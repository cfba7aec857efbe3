/** NOR flash: programming can only clear bits. */
module Flash {
  import opened Prelude

  /** What esp_partition_write leaves on the flash. */
  function Program(flash: seq<Byte>, at: nat, data: seq<Byte>): (r: seq<Byte>)
    requires at + |data| <= |flash|
    ensures |r| == |flash|
  {
    seq(|flash|, k requires 0 <= k < |flash| => if at <= k < at + |data| then flash[k] & data[k - at] else flash[k])
  }

  /** esp_partition_write */
  method WriteFlash(flash: array<Byte>, at: nat, data: seq<Byte>)
    requires at + |data| <= flash.Length
    modifies flash
    ensures flash[..] == Program(old(flash[..]), at, data)
  {
    for i := 0 to |data|
      invariant forall k | 0 <= k < flash.Length ::
        flash[k] == if at <= k < at + i then old(flash[k]) & data[k - at] else old(flash[k])
    {
      flash[at + i] := flash[at + i] & data[i];
    }
    assert flash[..] == Program(old(flash[..]), at, data);
  }
}
