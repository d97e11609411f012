/**
 * The wardrobe record, declared identically as `WardrobeItem` in app/page.tsx
 * and app/add-item/page.tsx.
 */
module Items {

  datatype Season = Winter | Spring | Summer | Autumn

  datatype Category =
    | Blouses | Tops | Cardigans | Dresses | Bottoms
    | Pants | Skirts | Outwear | Accessories | Shoes

  /**
   * One clothing item. `createdAt` is the creation instant in milliseconds
   * since the epoch, the number the pages obtain from the stored ISO-8601
   * string with `new Date(..).getTime()`.
   */
  datatype WardrobeItem = WardrobeItem(
    id: string,
    season: Season,
    category: Category,
    description: string,
    imageBase64: string,
    createdAt: int)
}
