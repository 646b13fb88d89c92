/** Types the soil-demo core borrows from Go's standard library and from the
    libraries it builds on (mgl32, ebiten, image/color), reduced to what the
    core uses of them. */
module Common {

  /** math.MaxFloat32, the largest finite float32: (2 - 2^-23) * 2^127.
      It is the "infinite" impermeability of rock and of the grid border. */
  const MaxFloat32: real := 340282346638528859811704183484516925440.0

  /** One grid cell. The source stores it in an mgl32.Vec2 whose component 0
      is the humidity and component 1 the impermeability. */
  datatype Cell = Cell(h: real, k: real)

  /** The buttons ebiten.MouseButton names. */
  datatype MouseButton =
    | MouseButtonLeft
    | MouseButtonMiddle
    | MouseButtonRight
    | MouseButton3
    | MouseButton4

  /** The colour values the core produces. Channel values of RGBA are 0..255.
      RockShade and Hue carry the alpha and the hue as computed, before the
      source converts them to uint8 and uint16. */
  datatype Color =
    | RGBA(r: int, g: int, b: int, a: int)  // color.RGBA
    | Black                                  // color.Black
    | Transparent                            // color.Transparent
    | RockShade(alpha: real)                 // color.RGBA{255, 255, 255, alpha}
    | Hue(hue: real)                         // util.HSVColor{hue, 255, 255}

  /** Opaque white, color.RGBA{0xff, 0xff, 0xff, 0xff}. */
  const White: Color := RGBA(255, 255, 255, 255)

  /** A Go `error` result: nil, or an error with its message. */
  datatype Outcome = Pass | Fail(message: string)

  /** A Go `(T, error)` pair where T is meaningful only when the error is nil. */
  datatype Result<T> = Ok(value: T) | Err(message: string)
}
