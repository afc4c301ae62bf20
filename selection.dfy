/*
 * Device selection (EspLink.Device.cs): CreateDevice scans the registered
 * device types for the one whose magic value (or id) was read from the
 * chip, and binds a fresh descriptor of that type to the link.
 */
module Selection {
  import opened Results
  import opened Devices
  import opened Session

  /**
   * CreateDevice(value, isId): the first registered chip that matches
   * becomes the link's device, a fresh descriptor with its defaults; with
   * no match NotSupportedException is raised and the device is left as it
   * was.
   */
  method CreateDevice(link: Link, value: bv32, isId: bool) returns (r: Result<()>)
    modifies link`device
    ensures var c := FindChip(REGISTRY, value, isId);
      if c.Some? then r == Ok(()) && link.device == Some(NewDescriptor(c.value))
      else r == Err(NotSupported) && link.device == old(link.device)
  {
    var i := 0;
    while i < |REGISTRY|
      invariant 0 <= i <= |REGISTRY|
      invariant FindChip(REGISTRY, value, isId) == FindChip(REGISTRY[i..], value, isId)
      invariant link.device == old(link.device)
    {
      var c := REGISTRY[i];
      if (!isId && Magic(c) == value) || (isId && Id(c) == value) {
        link.device := Some(NewDescriptor(c));
        return Ok(());
      }
      assert REGISTRY[i..][1..] == REGISTRY[i + 1..];
      i := i + 1;
    }
    return Err(NotSupported);
  }
}
