/**
  One spreadsheet row and the product record the catalog page shows for it.
 */
module Products {
  import opened Cells

  /** The literal that marks a product as being on promotion. */
  const PromotionMarker: string := "Выгодное предложение"

  /** The directory picture file names are placed under. */
  const ImageDir: string := "images/"

  /**
    A row of the sheet, one cell per column used: Категория (category),
    Название (name), Сорт (variety), Цена (price), Картинка (picture) and
    Акция (promotion).
   */
  datatype Row = Row(
    category: Cell,
    name: Cell,
    variety: Cell,
    price: Cell,
    picture: Cell,
    promotion: Cell)

  /**
    The presentation record. Variety and price keep the cell itself when it is
    truthy (a number stays a number); the picture becomes a path string.
   */
  datatype Product = Product(
    name: Cell,
    variety: Cell,
    price: Cell,
    image: string,
    onPromotion: bool)

  /** Python's `cell or ''`. */
  function OrEmpty(c: Cell): Cell {
    if Truthy(c) then c else Str("")
  }

  /** A defaulted cell is never a missing-value sentinel, and defaulting twice changes nothing. */
  lemma OrEmptyNormalises(c: Cell)
    ensures OrEmpty(c) != Absent
    ensures Truthy(OrEmpty(c)) <==> Truthy(c)
    ensures OrEmpty(OrEmpty(c)) == OrEmpty(c)
  {
  }

  /** The product built from one row. */
  function MakeProduct(row: Row): (p: Product)
    ensures p.name == row.name
    ensures p.variety != Absent && p.price != Absent
    ensures Truthy(row.variety) ==> p.variety == row.variety
    ensures !Truthy(row.variety) ==> p.variety == Str("")
    ensures Truthy(row.price) ==> p.price == row.price
    ensures !Truthy(row.price) ==> p.price == Str("")
    ensures p.image == "" <==> !Truthy(row.picture)
    ensures Truthy(row.picture) ==>
              |p.image| > |ImageDir| && p.image[..|ImageDir|] == ImageDir
              && p.image[|ImageDir|..] == Text(row.picture)
    ensures p.onPromotion <==> row.promotion == Str(PromotionMarker)
  {
    Product(
      row.name,
      OrEmpty(row.variety),
      OrEmpty(row.price),
      if Truthy(row.picture) then ImageDir + Text(row.picture) else "",
      row.promotion == Str(PromotionMarker))
  }

  /** A row whose optional cells are all empty gets every default. */
  lemma EmptyRowDefaults(row: Row)
    requires row.variety == Absent && row.price == Absent
    requires row.picture == Absent && row.promotion == Absent
    ensures MakeProduct(row).variety == Str("")
    ensures MakeProduct(row).price == Str("")
    ensures MakeProduct(row).image == ""
    ensures !MakeProduct(row).onPromotion
  {
  }

  /** A picture file name is joined to the image directory. */
  lemma PicturePath(row: Row)
    requires row.picture == Str("bottle.png")
    ensures MakeProduct(row).image == "images/bottle.png"
  {
  }

  /** A numeric picture cell is rendered in decimal, as the f-string does. */
  lemma NumericPicturePath(row: Row)
    requires row.picture == Num(42)
    ensures MakeProduct(row).image == "images/42"
  {
  }
}
