/**
 * `convert_rom` (src/convert.rs), kept apart from `Convert` because it needs
 * the `Rom` class, which itself depends on `Convert`.
 */
module RomConvert {
  import opened Endian
  import opened Wrappers
  import opened Convert
  import Rom

  /**
   * `convert_rom`: converts the whole image in place from the ROM's recorded
   * order to `target`. Only the image changes: the header, the boot loader and
   * the recorded order stay as they were.
   */
  method ConvertRom(rom: Rom.Rom, target: Endianness) returns (r: Result<ConvertStatus, Error>)
    modifies rom.image
    ensures rom.image.Length % 4 != 0 ==> r == Err(AlignmentError(rom.image.Length)) && rom.image[..] == old(rom.image[..])
    ensures rom.image.Length % 4 == 0 ==>
      r == Ok(if rom.order == target then AlreadyConverted else Complete)
      && rom.image[..] == Converted(rom.order, target, old(rom.image[..]))
    ensures rom.header == old(rom.header)
  {
    assert rom.image[..] == rom.image[..rom.image.Length];
    r := ConvertPrefix(rom.image, rom.image.Length, rom.order, target);
    assert rom.image[..] == rom.image[..rom.image.Length];
  }
}
