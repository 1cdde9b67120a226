/** Data shared by the disk planner (whole MiB) and the partitioning step (sectors), with the
    64-bit arithmetic both of them run on. */
module StorageTypes {

  const MOUNTPOINT_BOOT := "/boot"
  const MOUNTPOINT_ROOT := "/"
  const FILESYSTEM_FAT32 := "fat32"
  const FILESYSTEM_EXT4 := "ext4"
  const FILESYSTEM_BTRFS := "btrfs"
  const FILESYSTEM_XFS := "xfs"
  const BOOT_MIN_MIB := 100
  const BOOT_RECOMMENDED_MIB := 512
  const ROOT_MIN_MIB := 40960
  const ROOT_RECOMMENDED_MIB := 81920

  const TWO_63 := 0x8000_0000_0000_0000
  const TWO_64 := 0x1_0000_0000_0000_0000

  type U64 = x: int | 0 <= x < 0x1_0000_0000_0000_0000

  /** The 64-bit word left by one addition, subtraction or negation of 64-bit operands: the result
      modulo 2^64 (one lap is the most that such an operation can leave the range by). */
  function ToUnsigned(x: int): (r: U64)
    requires -TWO_64 <= x < 2 * TWO_64
  {
    if x < 0 then x + TWO_64 else if x >= TWO_64 then x - TWO_64 else x
  }

  /** `static_cast<int64_t>` of an unsigned word. */
  function ToSigned(x: U64): (r: int)
    ensures -TWO_63 <= r < TWO_63
    ensures ToUnsigned(r) == x
  {
    if x < TWO_63 then x else x - TWO_64
  }

  /** A partition or a free region as the planner sees it; an empty filesystem marks free space. */
  datatype Region = Region(device: string, filesystem: string, sizeMiB: U64, mountpoint: string) {
    predicate IsFree() {
      filesystem == ""
    }
  }

  datatype Operation =
    | Create(region: string, sizeMiB: U64, remaining: bool, filesystem: string, mountpoint: string)
    | Resize(partition: string, sizeMiB: U64, remaining: bool)
    | Remove(partition: string)
    | SetMountpoint(partition: string, mountpoint: string)
    | SetFilesystem(partition: string, filesystem: string)

  predicate IsValidFilesystem(filesystem: string) {
    filesystem == FILESYSTEM_FAT32 || filesystem == FILESYSTEM_EXT4 ||
    filesystem == FILESYSTEM_BTRFS || filesystem == FILESYSTEM_XFS
  }

  predicate IsValidMountpoint(mountpoint: string) {
    mountpoint == MOUNTPOINT_BOOT || mountpoint == MOUNTPOINT_ROOT
  }

  datatype Error =
    | MountsNotAllowed
    | MissingTarget
    | UnknownTarget
    | WrongKind
    | SizeWithRemaining
    | SizeTooSmall
    | SizeTooBig
    | BadFilesystem
    | BadMountpoint
    | SizesDoNotAddUp
    | NotOneBoot
    | NotOneRoot
    | BootTooSmall
    | RootTooSmall
    | PartitionGone
    | DuplicateTarget
    | MultipleMountpoints

  datatype Result<+T> = Ok(value: T) | Err(error: Error)
}
