/**
 What the loader is for, without flash cells, offsets or running CRCs: a persistent store that
 holds one complete image or none, and a volatile session that fills it.
 */
module ImageStore {
  import opened Bytes
  import opened ImageFormat
  import opened LoaderModel
  import opened MapLayouts
  import Crc32

  datatype Session =
    | Idle
    | Incoming(declared: Declared, data: seq<byte>)
    | Ready(image: Image)
    | Active(image: Image)
    | Broken(status: byte)

  datatype Store = Store(stored: Option<Image>, session: Session)

  /** Begin either leaves the stored image alone or destroys it; only then does reception start. */
  ghost predicate BeginStep(s: Store, declared: Declared, s': Store) {
    || s' == Store(s.stored, Broken(STATUS_FLASH_ERROR))
    || s' == Store(None, Broken(STATUS_FLASH_ERROR))
    || s' == Store(None, Incoming(declared, []))
  }

  ghost predicate DataStep(s: Store, bytes: seq<byte>, s': Store) {
    && s.session.Incoming?
    && s'.stored == None
    && (s'.session == Broken(STATUS_FLASH_ERROR)
        || s'.session == s.session.(data := s.session.data + bytes))
  }

  /** Finalize commits the image that was received, and only if it is vetted. An image can also
      end up stored although the session broke, when the marker was programmed but not acknowledged. */
  ghost predicate FinalizeStep(s: Store, s': Store) {
    && s.session.Incoming?
    && var image := Image(s.session.declared, s.session.data);
    && |image.payload| == LengthOf(image.declared)
    && if Crc32.Checksum(image.payload) != image.declared.crc then s' == Store(None, Broken(STATUS_BAD_CRC))
       else if !Vetted(image) then s' == Store(None, Broken(STATUS_BAD_STATE))
       else
         || s' == Store(None, Broken(STATUS_BAD_STATE))
         || s' == Store(None, Broken(STATUS_FLASH_ERROR))
         || s' == Store(Some(image), Broken(STATUS_FLASH_ERROR))
         || s' == Store(Some(image), Ready(image))
  }

  ghost predicate OpStep(s: Store, op: LoadOp, s': Store) {
    match op
    case Begin(bytecodeLen, mapCount, crc) => BeginStep(s, Declared(bytecodeLen, mapCount, crc), s')
    case Data(_, bytes) => DataStep(s, bytes, s')
    case Finalize => FinalizeStep(s, s')
  }

  /** A reboot never touches the store; what it finds there is all it can make ready. */
  ghost predicate RebootStep(s: Store, s': Store) {
    && s'.stored == s.stored
    && match s'.session
       case Idle => true
       case Broken(status) => status == STATUS_FLASH_ERROR
       case Ready(image) => s.stored == Some(image)
       case _ => false
  }
}
