/** One map marker (src/components/BusinessMarker.tsx): the glyph chosen by
    the business's icon name, with `Building2` as the fallback, and the
    pulse ring drawn only for the active marker. */
module Marker {
  import opened Types

  /** The seventeen glyphs registered in the icon table. */
  datatype Glyph =
    | Building2 | Cpu | TreePine | Coffee | GraduationCap | Factory | Theater | Zap | ChefHat
    | Telescope | Gauge | Flame | Wrench | Mountain | UtensilsCrossed | Shirt | Award

  /** The key under which each glyph is registered (the shorthand property name). */
  function GlyphName(g: Glyph): string
  {
    match g
    case Building2 => "Building2"
    case Cpu => "Cpu"
    case TreePine => "TreePine"
    case Coffee => "Coffee"
    case GraduationCap => "GraduationCap"
    case Factory => "Factory"
    case Theater => "Theater"
    case Zap => "Zap"
    case ChefHat => "ChefHat"
    case Telescope => "Telescope"
    case Gauge => "Gauge"
    case Flame => "Flame"
    case Wrench => "Wrench"
    case Mountain => "Mountain"
    case UtensilsCrossed => "UtensilsCrossed"
    case Shirt => "Shirt"
    case Award => "Award"
  }

  /** The icon table's own entries, in the order they are registered:
      `Some(g)` for a registered name, `None` for any other. */
  function Lookup(name: string): Option<Glyph>
  {
    if name == "Building2" then Some(Building2)
    else if name == "Cpu" then Some(Cpu)
    else if name == "TreePine" then Some(TreePine)
    else if name == "Coffee" then Some(Coffee)
    else if name == "GraduationCap" then Some(GraduationCap)
    else if name == "Factory" then Some(Factory)
    else if name == "Theater" then Some(Theater)
    else if name == "Zap" then Some(Zap)
    else if name == "ChefHat" then Some(ChefHat)
    else if name == "Telescope" then Some(Telescope)
    else if name == "Gauge" then Some(Gauge)
    else if name == "Flame" then Some(Flame)
    else if name == "Wrench" then Some(Wrench)
    else if name == "Mountain" then Some(Mountain)
    else if name == "UtensilsCrossed" then Some(UtensilsCrossed)
    else if name == "Shirt" then Some(Shirt)
    else if name == "Award" then Some(Award)
    else None
  }

  /** Every glyph is registered under its own name. */
  lemma LookupFindsEveryGlyph(g: Glyph)
    ensures Lookup(GlyphName(g)) == Some(g)
  {
  }

  /** A name that is found is the name of the glyph found. */
  lemma LookupIsByName(name: string)
    ensures Lookup(name).Some? ==> GlyphName(Lookup(name).value) == name
  {
  }

  /** The table holds exactly one entry per glyph, each under that glyph's own name. */
  lemma LookupRegistersEveryGlyph(name: string, g: Glyph)
    ensures Lookup(GlyphName(g)) == Some(g)
    ensures Lookup(name) == Some(g) <==> name == GlyphName(g)
  {
    LookupFindsEveryGlyph(g);
    LookupIsByName(name);
  }

  /** The glyph drawn for an icon name: the registered one, or `Building2`.
      This is the own-property lookup the fallback evidently intends; see
      `ResolveIconAsWritten` for what the plain object literal does. */
  function ResolveIcon(name: string): (g: Glyph)
    ensures Lookup(name).Some? ==> g == Lookup(name).value
    ensures Lookup(name).None? ==> g == Building2
  {
    match Lookup(name)
    case Some(registered) => registered
    case None => Building2
  }

  /** Every registered name resolves to its own glyph; any other name to `Building2`. */
  lemma ResolveIconExact(name: string, g: Glyph)
    ensures ResolveIcon(GlyphName(g)) == g
    ensures ResolveIcon(name) == g <==> name == GlyphName(g) || (g == Building2 && Lookup(name).None?)
  {
    LookupRegistersEveryGlyph(name, g);
  }

  /** The names every plain JavaScript object inherits from `Object.prototype`. */
  const ObjectPrototypeMembers: set<string> := {
    "constructor", "hasOwnProperty", "isPrototypeOf", "propertyIsEnumerable",
    "toLocaleString", "toString", "valueOf", "__proto__",
    "__defineGetter__", "__defineSetter__", "__lookupGetter__", "__lookupSetter__"}

  /** What `iconMap[name] || Building2` yields on an object literal: an own
      glyph, an inherited (truthy) prototype member, or the fallback. */
  datatype Component = Icon(glyph: Glyph) | Inherited(member: string)

  function ResolveIconAsWritten(name: string): (c: Component)
    ensures Lookup(name).Some? ==> c == Icon(Lookup(name).value)
    ensures c.Inherited? <==> name in ObjectPrototypeMembers
  {
    match Lookup(name)
    case Some(registered) => Icon(registered)
    case None => if name in ObjectPrototypeMembers then Inherited(name) else Icon(Building2)
  }

  /** An unregistered name such as "toString" does not fall back to `Building2`
      as written: it picks up a prototype function that is not a glyph. */
  lemma InheritedNameEscapesFallback()
    ensures Lookup("toString") == None
    ensures ResolveIconAsWritten("toString") == Inherited("toString")
    ensures ResolveIcon("toString") == Building2
  {
  }

  /** Apart from the inherited names, the as-written lookup agrees with `ResolveIcon`. */
  lemma AsWrittenAgreesOffPrototype(name: string)
    requires name !in ObjectPrototypeMembers
    ensures ResolveIconAsWritten(name) == Icon(ResolveIcon(name))
  {
  }

  /** What one marker draws: its glyph, and a pulse ring when active. */
  datatype MarkerView = MarkerView(glyph: Glyph, pulseRing: bool)

  function RenderMarker(business: Business, isActive: bool): (v: MarkerView)
    ensures v.pulseRing <==> isActive
    ensures v.glyph == ResolveIcon(business.icon)
  {
    MarkerView(ResolveIcon(business.icon), isActive)
  }
}
