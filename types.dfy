/** Shapes of the catalog entries shown on the map (src/types/business.ts).
    Every field is kept as data, whether or not some behaviour reads it;
    only the drawing coordinates `x` and `y` are dropped. */
module Types {

  /** `T | null` / `T | undefined` of the source. */
  datatype Option<T> = None | Some(value: T)

  datatype Technology = Technology(name: string, description: string, icon: Option<string>)

  datatype HistoryItem = HistoryItem(title: string, description: string, year: Option<string>)

  datatype Testimonial = Testimonial(text: string, author: string, group: Option<string>)

  /** The object form of an excursion: a text and perhaps an image. */
  datatype ExcursionItem = ExcursionItem(text: string, imageUrl: Option<string>)

  /** An excursion is `string | ExcursionItem`. */
  datatype Excursion = Plain(text: string) | Item(item: ExcursionItem)

  datatype Business = Business(
    id: string,
    name: string,
    category: string,
    subcategory: string,
    description: string,
    excursions: seq<Excursion>,
    professions: seq<string>,
    icon: string,
    color: string,
    technologies: Option<seq<Technology>>,
    history: Option<seq<HistoryItem>>,
    testimonials: Option<seq<Testimonial>>,
    imageUrl: Option<string>,
    excursionYears: Option<seq<int>>)

  /** No two catalog entries share an id. */
  predicate UniqueIds(catalog: seq<Business>)
  {
    forall i, j :: 0 <= i < |catalog| && 0 <= j < |catalog| && catalog[i].id == catalog[j].id ==> i == j
  }

  /** JavaScript truthiness of an optional string: present and not empty. */
  predicate Truthy(s: Option<string>)
  {
    s.Some? && s.value != ""
  }
}
