/**
 * Three-component values: points and directions over the reals, their
 * extended-real counterpart, and RGB spectra.
 */
module Vectors {
  import opened ExtReal

  datatype Axis = X | Y | Z

  datatype Vec3 = Vec3(x: real, y: real, z: real) {
    function At(i: nat): real
      requires i < 3
    {
      if i == 0 then x else if i == 1 then y else z
    }
    function Get(a: Axis): real {
      match a
      case X => x
      case Y => y
      case Z => z
    }
  }

  datatype EVec3 = EVec3(x: Ext, y: Ext, z: Ext) {
    function At(i: nat): Ext
      requires i < 3
    {
      if i == 0 then x else if i == 1 then y else z
    }
    function Get(a: Axis): Ext {
      match a
      case X => x
      case Y => y
      case Z => z
    }
  }

  function AxisOf(i: nat): Axis
    requires i < 3
  {
    if i == 0 then X else if i == 1 then Y else Z
  }

  function Add(a: Vec3, b: Vec3): Vec3 {
    Vec3(a.x + b.x, a.y + b.y, a.z + b.z)
  }

  function Sub(a: Vec3, b: Vec3): Vec3 {
    Vec3(a.x - b.x, a.y - b.y, a.z - b.z)
  }

  function Scale(c: real, a: Vec3): Vec3 {
    Vec3(c * a.x, c * a.y, c * a.z)
  }

  function Neg(a: Vec3): Vec3 {
    Vec3(-a.x, -a.y, -a.z)
  }

  function Dot(a: Vec3, b: Vec3): real {
    a.x * b.x + a.y * b.y + a.z * b.z
  }

  function NormSquared(a: Vec3): real {
    Dot(a, a)
  }

  function Zero(): Vec3 {
    Vec3(0.0, 0.0, 0.0)
  }

  /** Embeds a finite point into the extended reals. */
  function ToExt(p: Vec3): EVec3 {
    EVec3(Fin(p.x), Fin(p.y), Fin(p.z))
  }

  /** The cached componentwise inverse direction of a ray. */
  function RecipVec(d: Vec3): (r: EVec3)
    ensures r.x != Fin(0.0) && r.y != Fin(0.0) && r.z != Fin(0.0)
  {
    EVec3(Recip(d.x), Recip(d.y), Recip(d.z))
  }

  /** An RGB spectrum (`SpectrumRGB`). */
  datatype Spectrum = Rgb(r: real, g: real, b: real)

  function Grey(v: real): Spectrum {
    Rgb(v, v, v)
  }

  function SAdd(a: Spectrum, b: Spectrum): Spectrum {
    Rgb(a.r + b.r, a.g + b.g, a.b + b.b)
  }

  function SMul(a: Spectrum, b: Spectrum): Spectrum {
    Rgb(a.r * b.r, a.g * b.g, a.b * b.b)
  }

  function SScale(a: Spectrum, c: real): Spectrum {
    Rgb(a.r * c, a.g * c, a.b * c)
  }

  function SDiv(a: Spectrum, c: real): Spectrum
    requires c != 0.0
  {
    Rgb(a.r / c, a.g / c, a.b / c)
  }

  predicate IsBlack(a: Spectrum) {
    a.r == 0.0 && a.g == 0.0 && a.b == 0.0
  }
}
