/** The 8-bit RGBA colour record that bodies and trail segments carry (Go's color.RGBA). */
module Colors {

  type Byte = x: int | 0 <= x < 256

  datatype RGBA = RGBA(r: Byte, g: Byte, b: Byte, a: Byte)

  /** The fallback colour of config.go and main.go: {200, 200, 255, 255}. */
  const DefaultColor := RGBA(200, 200, 255, 255)

  /** The zero value color.RGBA{} that main.go replaces by the default colour. */
  const Transparent := RGBA(0, 0, 0, 0)

  /** Colour main.go gives a locked body: {200, 200, 200, 255}. */
  const LockedColor := RGBA(200, 200, 200, 255)

  /** Colour main.go gives an anti-gravity body: {255, 120, 120, 255}. */
  const AntiColor := RGBA(255, 120, 120, 255)
}
