/** The legacy disk geometry of linux/hdreg.h, reported by the HDIO_GETGEO
    ioctl: heads and sectors per track are unsigned chars, the cylinder count
    an unsigned short. */
module HdReg {
  datatype Geometry = Geometry(heads: nat, sectors: nat, cylinders: nat, start: nat)

  const HDIO_GETGEO: nat := 0x0301
}
