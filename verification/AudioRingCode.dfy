/** The ring functions of audio/hc15xx_audio.c over the registers, proved against `AudioRing`. */
module AudioRingCode {
  import opened CArithmetic
  import opened AudioRing

  const HALF := 0x1_0000

  /** `update(register, 0xffff, value)`: the upper half stays. */
  function WithLow(register: int, value: int): (r: int)
    requires 0 <= register < U32 && 0 <= value < HALF
    ensures 0 <= r < U32 && r % HALF == value && r / HALF == register / HALF
  {
    register - register % HALF + value
  }

  predicate RunBit(register: int) {
    register / HALF % 2 == 1
  }

  /** `update(register, BIT(16), BIT(16))`. */
  function WithRunBit(register: int): (r: int)
    requires 0 <= register < U32
    ensures 0 <= r < U32 && RunBit(r)
  {
    if RunBit(register) then register else register + HALF
  }

  class Audio {
    var ringBytes: int
    var target: int
    var published: int
    /** Register 0x38: consumer cursor above, producer cursor below. */
    var cursors: int
    /** Register 0x04 with the run bit. */
    var control: int
    /** Low half of register 0x34: the ring length in units. */
    var length: int

    predicate Valid()
      reads this
    {
      && 0 <= ringBytes <= 16 * MAX_UNITS && ringBytes % 16 == 0
      && 0 <= target < HALF && 0 <= published < HALF
      && 0 <= cursors < U32 && 0 <= control < U32
    }

    function View(): Ring
      reads this
    {
      Ring(ringBytes / 16, target, published, cursors % HALF, cursors / HALF, RunBit(control))
    }

    /** `hc15xx_audio_init`; the registers hold whatever the hardware left in them. */
    constructor (cursors: int, control: int)
      requires 0 <= cursors < U32 && 0 <= control < U32
      ensures Valid() && ringBytes == 0
    {
      ringBytes, target, published, length := 0, 0, 0, 0;
      this.cursors, this.control := cursors, control;
    }

    /** `hc15xx_audio_configure_ring`: refuses empty, unaligned and oversized rings. */
    method ConfigureRing(bytes: int, periodFrames: int) returns (ret: int)
      requires Valid() && 0 <= bytes < U32 && 0 <= periodFrames < U32
      modifies this
      ensures Valid()
      ensures ret == 0 <==>
        0 < bytes <= 16 * MAX_UNITS && bytes % 16 == 0 && 0 < periodFrames <= 0xffff
      ensures ret == 0 ==> View() == Configured(bytes / 16, old(View()).running) && 16 * length == bytes
      ensures ret != 0 ==> View() == old(View())
    {
      if bytes == 0 || bytes % 16 != 0 || bytes > 0xffff0 || periodFrames == 0 || periodFrames > 0xffff {
        return -1;
      }
      ringBytes, target, published := bytes, 0, 0;
      length := bytes / 16;
      cursors := 0;
      return 0;
    }

    /** `hc15xx_audio_consumer`. */
    method Consumer() returns (byteOffset: int)
      requires Valid()
      ensures byteOffset == 16 * View().consumer
    {
      byteOffset := cursors / HALF % HALF * 16;
    }

    /** `hc15xx_audio_service_ring`. */
    method ServiceRing() returns (changed: bool)
      requires Valid()
      modifies this
      ensures Valid() && ringBytes == old(ringBytes)
      ensures View() == Service(old(View()))
      ensures changed <==> View() != old(View()) || (old(published) != old(target) && published == target)
    {
      var consumer := cursors / HALF % HALF;
      changed := false;
      if published != target && consumer != target {
        published := target;
        cursors := WithLow(cursors, published);
        changed := true;
      }
      if published != consumer && !RunBit(control) {
        control := WithRunBit(control);
        changed := true;
      }
    }

    /** `hc15xx_audio_set_target`. */
    method SetTarget(byteOffset: int, pending: bool)
      requires Valid() && 0 <= byteOffset < U32
      modifies this
      ensures Valid() && ringBytes == old(ringBytes)
      ensures ringBytes == 0 ==> View() == old(View())
      ensures ringBytes != 0 ==> View() == AudioRing.SetTarget(old(View()), byteOffset, pending)
    {
      hide Service;
      if ringBytes == 0 {
        return;
      }
      var offset := byteOffset % ringBytes;
      var consumer := Consumer();
      var publish := PublishOffset(ringBytes, consumer, offset, pending);
      InRing(ringBytes, consumer, offset, pending);
      target := offset / 16;
      published := publish / 16;
      cursors := WithLow(cursors, published);
      var _ := ServiceRing();
    }
  }

  /** Offsets in a ring fit the 16-bit unit fields. */
  lemma InRing(bytes: int, consumer: int, offset: int, pending: bool)
    requires 0 < bytes <= 16 * MAX_UNITS && 0 <= offset < bytes
    ensures 0 <= PublishOffset(bytes, consumer, offset, pending) < bytes
  {
  }
}
