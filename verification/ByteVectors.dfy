/** The output buffer the Builder appends to (a VectorPro::Vector of bytes). */
module ByteVectors {
  import opened Packet

  class ByteVector {
    var data: seq<byte>

    constructor ()
      ensures data == []
    {
      data := [];
    }

    method Clear()
      modifies this
      ensures data == []
    {
      data := [];
    }

    method PushBack(value: byte)
      modifies this
      ensures data == old(data) + [value]
    {
      data := data + [value];
    }
  }
}
